/**
 Client-side sorting of the table's rows by one field: the sort key (strings
 upper-cased, other values compared natively), the comparator the table hands
 to `Array.prototype.sort`, and the sort of a copied array.
 */
module Sorting {

  /** A cell value: the model restricts fields to text and integer numbers. */
  datatype Value = Text(s: string) | Number(n: int)

  /** A row: an open record of named fields. */
  type Row = map<string, Value>

  /** The value a comparison sees: an upper-cased string, a number, or `undefined`
      when the row has no such field. */
  datatype Key = Undefined | TextKey(s: string) | NumberKey(n: int)

  function UpperChar(c: char): (u: char)
    ensures 'a' <= c <= 'z' ==> 'A' <= u <= 'Z' && u as int == c as int - 32
    ensures !('a' <= c <= 'z') ==> u == c
  {
    if 'a' <= c <= 'z' then (c as int - 32) as char else c
  }

  /** `toUpperCase`, over ASCII letters only. */
  function UpperCase(s: string): (u: string)
    ensures |u| == |s|
    ensures forall i :: 0 <= i < |s| ==> u[i] == UpperChar(s[i])
  {
    if s == [] then [] else [UpperChar(s[0])] + UpperCase(s[1..])
  }

  /** The key the comparator reads from a row for `field`. */
  function SortKey(row: Row, field: string): (k: Key)
    ensures k.Undefined? <==> field !in row
    ensures k.NumberKey? ==> row[field] == Number(k.n)
    ensures k.TextKey? ==> field in row && row[field].Text? && k.s == UpperCase(row[field].s)
    ensures k.TextKey? ==> forall i :: 0 <= i < |k.s| ==> !('a' <= k.s[i] <= 'z')
  {
    if field !in row then Undefined
    else match row[field]
      case Text(s) => TextKey(UpperCase(s))
      case Number(n) => NumberKey(n)
  }

  /** JavaScript's `<` on strings: lexicographic by character. */
  function LexLess(a: string, b: string): (r: bool)
    ensures r ==> a != b
    ensures |a| < |b| && a == b[..|a|] ==> r
  {
    if a == [] then b != []
    else if b == [] then false
    else if a[0] < b[0] then true
    else if a[0] == b[0] then LexLess(a[1..], b[1..])
    else false
  }

  lemma {:induction false} LexLessIrreflexive(a: string)
    ensures !LexLess(a, a)
  {
    if a != [] {
      LexLessIrreflexive(a[1..]);
    }
  }

  lemma {:induction false} LexLessTransitive(a: string, b: string, c: string)
    requires LexLess(a, b) && LexLess(b, c)
    ensures LexLess(a, c)
  {
    if a != [] && b != [] && c != [] && a[0] == b[0] == c[0] {
      LexLessTransitive(a[1..], b[1..], c[1..]);
    }
  }

  lemma {:induction false} LexLessTotal(a: string, b: string)
    requires a != b
    ensures LexLess(a, b) || LexLess(b, a)
  {
    if a != [] && b != [] && a[0] == b[0] {
      assert a == [a[0]] + a[1..] && b == [b[0]] + b[1..];
      LexLessTotal(a[1..], b[1..]);
    }
  }

  lemma LexLessAsymmetric(a: string, b: string)
    requires LexLess(a, b)
    ensures !LexLess(b, a)
  {
    if LexLess(b, a) {
      LexLessTransitive(a, b, a);
      LexLessIrreflexive(a);
    }
  }

  /** JavaScript's `<` on two keys: strings lexicographically, numbers numerically;
      a comparison with `undefined`, or between a string and a number, is false. */
  function KeyLess(a: Key, b: Key): (r: bool)
    ensures r ==> SameKind(a, b) && a != b
  {
    match (a, b)
    case (TextKey(x), TextKey(y)) => LexLess(x, y)
    case (NumberKey(x), NumberKey(y)) => x < y
    case _ => false
  }

  /** Both keys are strings or both are numbers, so `<` orders them. */
  predicate SameKind(a: Key, b: Key)
  {
    (a.TextKey? && b.TextKey?) || (a.NumberKey? && b.NumberKey?)
  }

  lemma KeyLessAsymmetric(a: Key, b: Key)
    requires KeyLess(a, b)
    ensures !KeyLess(b, a)
  {
    if a.TextKey? {
      LexLessAsymmetric(a.s, b.s);
    }
  }

  /** On keys of one kind, two distinct keys are ordered one way or the other. */
  lemma KeyLessTotal(a: Key, b: Key)
    requires SameKind(a, b) && a != b
    ensures KeyLess(a, b) || KeyLess(b, a)
  {
    if a.TextKey? {
      LexLessTotal(a.s, b.s);
    }
  }

  /** "Not below" is transitive on keys of one kind. */
  lemma KeyNotLessTransitive(a: Key, b: Key, c: Key)
    requires SameKind(a, b) && SameKind(b, c)
    requires !KeyLess(a, b) && !KeyLess(b, c)
    ensures !KeyLess(a, c)
  {
    if a.TextKey? && a.s != b.s && b.s != c.s {
      LexLessTotal(a.s, b.s);
      LexLessTotal(b.s, c.s);
      LexLessTransitive(c.s, b.s, a.s);
      LexLessAsymmetric(c.s, a.s);
    }
  }

  /** x must come strictly before y in a sort by `field` in the given direction. */
  predicate Precedes(x: Row, y: Row, field: string, ascending: bool)
  {
    if ascending then KeyLess(SortKey(x, field), SortKey(y, field))
    else KeyLess(SortKey(y, field), SortKey(x, field))
  }

  /** The comparator the table passes to `sort`; `ascending` is the `kind` flag.
      It never returns 0: rows with equal keys are reported as out of order either way. */
  function Compare(x: Row, y: Row, field: string, ascending: bool): (r: int)
    ensures r == -1 || r == 1
    ensures Precedes(x, y, field, ascending) ==> r < 0
    ensures Precedes(y, x, field, ascending) ==> r > 0
  {
    var kx, ky := SortKey(x, field), SortKey(y, field);
    if KeyLess(kx, ky) then
      KeyLessAsymmetric(kx, ky);
      if ascending then -1 else 1
    else
      if ascending then 1 else -1
  }

  /** No row comes after a row it must precede. */
  ghost predicate SortedBy(s: seq<Row>, field: string, ascending: bool)
  {
    forall i, j :: 0 <= i < j < |s| ==> !Precedes(s[j], s[i], field, ascending)
  }

  predicate HasKind(k: Key, text: bool)
  {
    if text then k.TextKey? else k.NumberKey?
  }

  /** Every row holds a string under `field` (when `text`), or every row a number. */
  ghost predicate AllOfKind(s: seq<Row>, field: string, text: bool)
  {
    forall i :: 0 <= i < |s| ==> HasKind(SortKey(s[i], field), text)
  }

  /** Every row holds `field`, and all of them hold a string there or all of them a number. */
  ghost predicate Comparable(s: seq<Row>, field: string)
  {
    AllOfKind(s, field, true) || AllOfKind(s, field, false)
  }

  /** Whether rows are comparable on a field does not depend on their order. */
  lemma ComparablePermutation(s: seq<Row>, t: seq<Row>, field: string)
    requires multiset(s) == multiset(t)
    requires Comparable(s, field)
    ensures Comparable(t, field)
  {
    var text := AllOfKind(s, field, true);
    forall k | 0 <= k < |t|
      ensures HasKind(SortKey(t[k], field), text)
    {
      assert t[k] in multiset(s);
      var m :| 0 <= m < |s| && s[m] == t[k];
    }
  }

  lemma PrecedesAsymmetric(x: Row, y: Row, field: string, ascending: bool)
    requires Precedes(x, y, field, ascending)
    ensures !Precedes(y, x, field, ascending)
  {
    if ascending {
      KeyLessAsymmetric(SortKey(x, field), SortKey(y, field));
    } else {
      KeyLessAsymmetric(SortKey(y, field), SortKey(x, field));
    }
  }

  lemma NotPrecedesTransitive(x: Row, y: Row, z: Row, field: string, ascending: bool, text: bool)
    requires HasKind(SortKey(x, field), text) && HasKind(SortKey(y, field), text) && HasKind(SortKey(z, field), text)
    requires !Precedes(z, y, field, ascending) && !Precedes(y, x, field, ascending)
    ensures !Precedes(z, x, field, ascending)
  {
    var kx, ky, kz := SortKey(x, field), SortKey(y, field), SortKey(z, field);
    if ascending {
      KeyNotLessTransitive(kz, ky, kx);
    } else {
      KeyNotLessTransitive(kx, ky, kz);
    }
  }

  /** In a sorted sequence of comparable rows, any two rows whose keys differ are in
      strict order: ascending when `ascending`, descending otherwise. Rows with equal
      keys may stand in either order. */
  lemma SortedDistinctKeys(s: seq<Row>, field: string, ascending: bool, i: int, j: int)
    requires Comparable(s, field) && SortedBy(s, field, ascending)
    requires 0 <= i < j < |s| && SortKey(s[i], field) != SortKey(s[j], field)
    ensures Precedes(s[i], s[j], field, ascending)
  {
    KeyLessTotal(SortKey(s[i], field), SortKey(s[j], field));
  }

  /** Strings that differ only in the case of ASCII letters compare equal: neither row
      must come before the other, in either direction. */
  lemma SortKeyIgnoresCase(x: Row, y: Row, field: string, ascending: bool, s: string, t: string)
    requires field in x && x[field] == Text(s)
    requires field in y && y[field] == Text(t)
    requires UpperCase(s) == UpperCase(t)
    ensures !Precedes(x, y, field, ascending) && !Precedes(y, x, field, ascending)
  {
    LexLessIrreflexive(UpperCase(s));
  }

  /** No two of the first `hi` elements of `a`, `skip` aside, are out of order. */
  ghost predicate SortedExcept(a: seq<Row>, hi: int, skip: int, field: string, ascending: bool)
    requires hi <= |a|
  {
    forall p, q :: 0 <= p < q < hi && p != skip && q != skip ==> !Precedes(a[q], a[p], field, ascending)
  }

  /** What insertion of the element that started at i knows once it has reached j:
      apart from it, the first i + 1 elements are in order, and nothing to its right
      is to precede it. */
  ghost predicate Inserting(s: seq<Row>, i: int, j: int, field: string, ascending: bool,
                            text: bool, comparable: bool)
    requires 0 <= j <= i < |s|
  {
    && (comparable ==> AllOfKind(s, field, text) && SortedExcept(s, i + 1, j, field, ascending))
    && forall q :: j < q <= i ==> !Precedes(s[q], s[j], field, ascending)
  }

  /** One step of insertion sort: moves a[i] left while the comparator reports it and
      its left neighbour out of order. */
  method InsertLast(a: array<Row>, i: int, field: string, ascending: bool, ghost text: bool, ghost comparable: bool)
    requires 0 <= i < a.Length
    requires comparable ==> AllOfKind(a[..], field, text) && SortedExcept(a[..], i, -1, field, ascending)
    modifies a
    ensures multiset(a[..]) == multiset(old(a[..]))
    ensures comparable ==> AllOfKind(a[..], field, text) && SortedExcept(a[..], i + 1, -1, field, ascending)
  {
    var j := i;
    InsertionStart(a[..], i, field, ascending, text, comparable);
    while 0 < j && Compare(a[j - 1], a[j], field, ascending) > 0
      invariant 0 <= j <= i
      invariant multiset(a[..]) == multiset(old(a[..]))
      invariant Inserting(a[..], i, j, field, ascending, text, comparable)
    {
      ghost var before := a[..];
      a[j - 1], a[j] := a[j], a[j - 1];
      SwapKeepsInvariant(before, a[..], i, j, field, ascending, text, comparable);
      j := j - 1;
    }
    if comparable {
      InsertionDone(a[..], i, j, field, ascending, text);
    }
  }

  lemma InsertionStart(s: seq<Row>, i: int, field: string, ascending: bool, text: bool, comparable: bool)
    requires 0 <= i < |s|
    requires comparable ==> AllOfKind(s, field, text) && SortedExcept(s, i, -1, field, ascending)
    ensures Inserting(s, i, i, field, ascending, text, comparable)
  {
  }

  /** Swapping the element being inserted with its left neighbour, when the comparator
      reports the two out of order, keeps the insertion invariant one place further left. */
  lemma SwapKeepsInvariant(s: seq<Row>, t: seq<Row>, i: int, j: int, field: string, ascending: bool,
                           text: bool, comparable: bool)
    requires 0 < j <= i < |s|
    requires t == s[j - 1 := s[j]][j := s[j - 1]]
    requires Inserting(s, i, j, field, ascending, text, comparable)
    requires Compare(s[j - 1], s[j], field, ascending) > 0
    ensures multiset(t) == multiset(s)
    ensures Inserting(t, i, j - 1, field, ascending, text, comparable)
  {
    if !ascending {
      PrecedesAsymmetric(s[j], s[j - 1], field, ascending);
    }
    if comparable {
      forall k | 0 <= k < |t|
        ensures HasKind(SortKey(t[k], field), text)
      {
        if k == j - 1 { assert t[k] == s[j]; }
        else if k == j { assert t[k] == s[j - 1]; }
        else { assert t[k] == s[k]; }
      }
    }
  }

  /** Once the comparator no longer reports the inserted element and its left neighbour
      out of order, the first i + 1 elements are sorted. */
  lemma InsertionDone(s: seq<Row>, i: int, j: int, field: string, ascending: bool, text: bool)
    requires 0 <= j <= i < |s|
    requires Inserting(s, i, j, field, ascending, text, true)
    requires 0 < j ==> Compare(s[j - 1], s[j], field, ascending) <= 0
    ensures AllOfKind(s, field, text) && SortedExcept(s, i + 1, -1, field, ascending)
  {
    if 0 < j && ascending {
      PrecedesAsymmetric(s[j - 1], s[j], field, ascending);
    }
    forall p | 0 <= p < j - 1
      ensures !Precedes(s[j], s[p], field, ascending)
    {
      NotPrecedesTransitive(s[p], s[j - 1], s[j], field, ascending, text);
    }
  }

  /** Sorts a copy of `rows` with the comparator `Compare(_, _, field, ascending)`,
      as `[...rows].sort(...)` does. The result is a permutation of `rows`; when the
      rows are comparable on `field`, it is sorted in the direction asked for. */
  method SortRows(rows: seq<Row>, field: string, ascending: bool) returns (sorted: seq<Row>)
    ensures multiset(sorted) == multiset(rows)
    ensures Comparable(rows, field) ==> SortedBy(sorted, field, ascending)
  {
    var a := new Row[|rows|](i requires 0 <= i < |rows| => rows[i]);
    assert a[..] == rows;
    ghost var text := AllOfKind(rows, field, true);
    ghost var comparable := Comparable(rows, field);
    var i := 0;
    while i < a.Length
      invariant 0 <= i <= a.Length
      invariant multiset(a[..]) == multiset(rows)
      invariant comparable ==> AllOfKind(a[..], field, text) && SortedExcept(a[..], i, -1, field, ascending)
    {
      InsertLast(a, i, field, ascending, text, comparable);
      i := i + 1;
    }
    sorted := a[..];
  }
}
