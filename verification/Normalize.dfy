/** Array-order normalisation of JSON values: a canonical form for "the same up to reordering arrays". */
module Normalize {
  import opened Json

  // ------------------------------------------------------------------------
  // Sorting by printed text
  // ------------------------------------------------------------------------

  function Insert(v: Json, sorted: seq<Json>): seq<Json> {
    if sorted == [] || LexLe(Print(v), Print(sorted[0])) then [v] + sorted
    else [sorted[0]] + Insert(v, sorted[1..])
  }

  /** The stable sort by text. */
  function SortByText(items: seq<Json>): seq<Json> {
    if items == [] then [] else Insert(items[0], SortByText(items[1..]))
  }

  function Norm(v: Json): Json
    decreases v, 0
  {
    match v
    case Array(items) => Array(SortByText(NormItems(items)))
    case Object(fields) => Object(NormFields(fields))
    case _ => v
  }

  function NormItems(items: seq<Json>): (r: seq<Json>)
    ensures |r| == |items|
    decreases items, 0
  {
    if items == [] then [] else [Norm(items[0])] + NormItems(items[1..])
  }

  function NormFields(fields: seq<Field>): (r: seq<Field>)
    ensures |r| == |fields|
    ensures forall i :: 0 <= i < |fields| ==> r[i].name == fields[i].name
    decreases fields, 0
  {
    if fields == [] then []
    else [Field(fields[0].name, Norm(fields[0].value))] + NormFields(fields[1..])
  }

  // ------------------------------------------------------------------------
  // Text order
  // ------------------------------------------------------------------------

  /** The first difference decides, and a text comes after its prefixes. */
  lemma {:induction false} LexMeaning(a: string, b: string)
    ensures LexLe(a, b) <==> a <= b || exists i :: 0 <= i < |a| && i < |b| && a[..i] == b[..i] && a[i] < b[i]
  {
    if a == [] || b == [] || a[0] != b[0] {
      if a != [] && b != [] && a[0] < b[0] {
        assert a[..0] == b[..0];
      }
      if i :| 0 <= i < |a| && i < |b| && a[..i] == b[..i] && a[i] < b[i] {
        if i > 0 {
          SameHead(a, b, i);
        }
      }
    } else {
      LexMeaning(a[1..], b[1..]);
      assert a <= b <==> a[1..] <= b[1..] by {
        assert a == [a[0]] + a[1..] && b == [b[0]] + b[1..];
      }
      LexShift(a, b);
    }
  }

  lemma SameHead(a: string, b: string, i: nat)
    requires 0 < i <= |a| && i <= |b| && a[..i] == b[..i]
    ensures a[0] == b[0]
  {
    assert a[0] == a[..i][0] && b[0] == b[..i][0];
  }

  lemma LexShift(a: string, b: string)
    requires a != [] && b != [] && a[0] == b[0]
    ensures (exists i :: 0 <= i < |a| && i < |b| && a[..i] == b[..i] && a[i] < b[i])
            <==> exists j :: 0 <= j < |a[1..]| && j < |b[1..]| && a[1..][..j] == b[1..][..j] && a[1..][j] < b[1..][j]
  {
    if i :| 0 <= i < |a| && i < |b| && a[..i] == b[..i] && a[i] < b[i] {
      var j := i - 1;
      assert a[1..][..j] == a[..i][1..] && b[1..][..j] == b[..i][1..];
      assert a[1..][j] == a[i] && b[1..][j] == b[i];
    }
    if j :| 0 <= j < |a[1..]| && j < |b[1..]| && a[1..][..j] == b[1..][..j] && a[1..][j] < b[1..][j] {
      assert a[..j + 1] == [a[0]] + a[1..][..j] && b[..j + 1] == [b[0]] + b[1..][..j];
      assert a[j + 1] == a[1..][j] && b[j + 1] == b[1..][j];
    }
  }

  lemma LexTotal(a: string, b: string)
    ensures LexLe(a, b) || LexLe(b, a)
  {
  }

  lemma {:induction false} LexAntisymmetric(a: string, b: string)
    requires LexLe(a, b) && LexLe(b, a)
    ensures a == b
  {
    if a == [] {
    } else {
      LexAntisymmetric(a[1..], b[1..]);
      assert a == [a[0]] + a[1..] && b == [b[0]] + b[1..];
    }
  }

  lemma {:induction false} LexTransitive(a: string, b: string, c: string)
    requires LexLe(a, b) && LexLe(b, c)
    ensures LexLe(a, c)
  {
    if a != [] && a[0] == b[0] == c[0] {
      LexTransitive(a[1..], b[1..], c[1..]);
    }
  }

  ghost predicate Sorted(items: seq<Json>) {
    forall i, j :: 0 <= i < j < |items| ==> LexLe(Print(items[i]), Print(items[j]))
  }

  lemma {:induction false} InsertPermutes(v: Json, sorted: seq<Json>)
    ensures multiset(Insert(v, sorted)) == multiset(sorted) + multiset{v}
  {
    hide Print;
    hide LexLe;
    if sorted != [] && !LexLe(Print(v), Print(sorted[0])) {
      InsertPermutes(v, sorted[1..]);
      assert sorted == [sorted[0]] + sorted[1..];
    }
  }

  /** A lower bound of a list that is also below v stays one after v is inserted. */
  lemma InsertBound(low: Json, v: Json, sorted: seq<Json>)
    requires forall i :: 0 <= i < |sorted| ==> LexLe(Print(low), Print(sorted[i]))
    requires LexLe(Print(low), Print(v))
    ensures forall i :: 0 <= i < |Insert(v, sorted)| ==> LexLe(Print(low), Print(Insert(v, sorted)[i]))
  {
    hide Print;
    hide LexLe;
    InsertPermutes(v, sorted);
    var r := Insert(v, sorted);
    forall i | 0 <= i < |r|
      ensures LexLe(Print(low), Print(r[i]))
    {
      assert r[i] in multiset(r);
    }
  }

  lemma {:induction false} InsertSorted(v: Json, sorted: seq<Json>)
    requires Sorted(sorted)
    ensures Sorted(Insert(v, sorted))
  {
    hide Print;
    hide LexLe;
    if sorted == [] {
    } else if LexLe(Print(v), Print(sorted[0])) {
      forall j | 0 <= j < |sorted|
        ensures LexLe(Print(v), Print(sorted[j]))
      {
        if j > 0 {
          LexTransitive(Print(v), Print(sorted[0]), Print(sorted[j]));
        }
      }
    } else {
      LexTotal(Print(v), Print(sorted[0]));
      InsertSorted(v, sorted[1..]);
      InsertBound(sorted[0], v, sorted[1..]);
    }
  }

  /** Sorting permutes, and orders by text. */
  lemma {:induction false} SortFacts(items: seq<Json>)
    ensures multiset(SortByText(items)) == multiset(items)
    ensures Sorted(SortByText(items))
  {
    if items == [] {
    } else {
      SortFacts(items[1..]);
      InsertPermutes(items[0], SortByText(items[1..]));
      InsertSorted(items[0], SortByText(items[1..]));
      assert items == [items[0]] + items[1..];
    }
  }

  /** Since equal texts come from equal values, a multiset of values has only one sorted listing. */
  lemma {:induction false} SortedUnique(a: seq<Json>, b: seq<Json>)
    requires Sorted(a) && Sorted(b) && multiset(a) == multiset(b)
    requires AllWellFormed(a) && AllWellFormed(b)
    ensures a == b
  {
    hide Print;
    hide LexLe;
    assert |multiset(a)| == |a| && |multiset(b)| == |b|;
    if a == [] {
    } else {
      HeadLeast(a, b);
      HeadLeast(b, a);
      LexAntisymmetric(Print(a[0]), Print(b[0]));
      PrintInjective(a[0], b[0]);
      SortedUniqueTail(a, b);
      SortedUnique(a[1..], b[1..]);
      assert a == [a[0]] + a[1..] && b == [b[0]] + b[1..];
    }
  }

  lemma SortedUniqueTail(a: seq<Json>, b: seq<Json>)
    requires a != [] && b != [] && a[0] == b[0] && multiset(a) == multiset(b)
    requires Sorted(a) && Sorted(b)
    ensures multiset(a[1..]) == multiset(b[1..]) && Sorted(a[1..]) && Sorted(b[1..])
  {
    hide Print;
    hide LexLe;
    TailMultiset(a);
    TailMultiset(b);
  }

  lemma TailMultiset(a: seq<Json>)
    requires a != []
    ensures multiset(a[1..]) == multiset(a) - multiset{a[0]}
  {
    assert a == [a[0]] + a[1..];
  }

  lemma HeadLeast(a: seq<Json>, b: seq<Json>)
    requires a != [] && b != [] && Sorted(a) && multiset(a) == multiset(b)
    ensures LexLe(Print(a[0]), Print(b[0]))
  {
    assert b[0] in multiset(b);
    var k :| 0 <= k < |a| && a[k] == b[0];
    if k == 0 {
      LexReflexive(Print(a[0]));
    }
  }

  lemma {:induction false} LexReflexive(a: string)
    ensures LexLe(a, a)
  {
    if a == [] {
    } else {
      LexReflexive(a[1..]);
    }
  }

  // ------------------------------------------------------------------------
  // Normal forms are well-formed
  // ------------------------------------------------------------------------

  lemma PermutedWellFormed(a: seq<Json>, b: seq<Json>)
    requires AllWellFormed(a) && multiset(a) == multiset(b)
    ensures AllWellFormed(b)
  {
    forall i | 0 <= i < |b|
      ensures WellFormed(b[i])
    {
      assert b[i] in multiset(b);
      var k :| 0 <= k < |a| && a[k] == b[i];
      WellFormedAt(a, k);
    }
    WellFormedAll(b);
  }

  lemma {:induction false} NormWellFormed(v: Json)
    requires WellFormed(v)
    ensures WellFormed(Norm(v))
    decreases v, 0
  {
    match v {
      case Array(items) =>
        NormItemsWellFormed(items);
        SortFacts(NormItems(items));
        PermutedWellFormed(NormItems(items), SortByText(NormItems(items)));
      case Object(fields) =>
        NormFieldsWellFormed(fields);
      case _ =>
    }
  }

  lemma {:induction false} NormItemsWellFormed(items: seq<Json>)
    requires AllWellFormed(items)
    ensures AllWellFormed(NormItems(items))
    decreases items, 1
  {
    if items == [] {
    } else {
      NormWellFormed(items[0]);
      NormItemsWellFormed(items[1..]);
    }
  }

  lemma {:induction false} NormFieldsWellFormed(fields: seq<Field>)
    requires AllFieldsWellFormed(fields)
    ensures AllFieldsWellFormed(NormFields(fields))
    decreases fields, 1
  {
    if fields == [] {
    } else {
      NormWellFormed(fields[0].value);
      NormFieldsWellFormed(fields[1..]);
    }
  }

  // ------------------------------------------------------------------------
  // Equal up to array order
  // ------------------------------------------------------------------------

  function Without(items: seq<Json>, k: nat): seq<Json>
    requires k < |items|
  {
    items[..k] + items[k + 1..]
  }

  /** The values differ only in the order of array items, at any depth. */
  ghost predicate Reordered(v: Json, w: Json)
    decreases v, 0
  {
    match (v, w)
    case (Array(a), Array(b)) => ReorderedItems(a, b)
    case (Object(a), Object(b)) => ReorderedFields(a, b)
    case _ => v == w
  }

  /** The items can be paired off: the first with some item of the other list, the rest with what remains there. */
  ghost predicate ReorderedItems(a: seq<Json>, b: seq<Json>)
    decreases a, 0
  {
    if a == [] then b == []
    else exists k :: 0 <= k < |b| && Reordered(a[0], b[k]) && ReorderedItems(a[1..], Without(b, k))
  }

  ghost predicate ReorderedFields(a: seq<Field>, b: seq<Field>)
    decreases a, 0
  {
    if a == [] then b == []
    else b != [] && a[0].name == b[0].name && Reordered(a[0].value, b[0].value) && ReorderedFields(a[1..], b[1..])
  }

  lemma {:induction false} NormItemsAt(items: seq<Json>, i: nat)
    requires i < |items|
    ensures NormItems(items)[i] == Norm(items[i])
  {
    if i == 0 {
    } else {
      NormItemsAt(items[1..], i - 1);
    }
  }

  lemma {:induction false} NormItemsConcat(a: seq<Json>, b: seq<Json>)
    ensures NormItems(a + b) == NormItems(a) + NormItems(b)
  {
    hide Norm;
    if a == [] {
      assert a + b == b;
    } else {
      NormItemsConcat(a[1..], b);
      assert (a + b)[1..] == a[1..] + b && (a + b)[0] == a[0];
    }
  }

  lemma NormItemsOne(v: Json)
    ensures NormItems([v]) == [Norm(v)]
  {
    hide Norm;
  }

  lemma MultisetMiddle(p: seq<Json>, v: Json, q: seq<Json>)
    ensures multiset(p + ([v] + q)) == multiset(p + q) + multiset{v}
  {
  }

  lemma NormItemsMiddle(x: seq<Json>, v: Json, y: seq<Json>)
    ensures multiset(NormItems(x + ([v] + y))) == multiset(NormItems(x + y)) + multiset{Norm(v)}
  {
    hide Norm;
    hide NormItems;
    NormItemsConcat(x, [v] + y);
    NormItemsConcat([v], y);
    NormItemsConcat(x, y);
    NormItemsOne(v);
    MultisetMiddle(NormItems(x), Norm(v), NormItems(y));
  }

  lemma SplitAt(items: seq<Json>, k: nat)
    requires k < |items|
    ensures items == items[..k] + ([items[k]] + items[k + 1..])
  {
  }

  lemma NormItemsWithout(items: seq<Json>, k: nat)
    requires k < |items|
    ensures NormItems(items)[k] == Norm(items[k])
    ensures multiset(NormItems(items)) == multiset(NormItems(Without(items, k))) + multiset{Norm(items[k])}
  {
    hide Norm;
    hide NormItems;
    NormItemsAt(items, k);
    NormItemsMiddle(items[..k], items[k], items[k + 1..]);
    SplitAt(items, k);
  }

  lemma NormItemsCons(items: seq<Json>)
    requires items != []
    ensures multiset(NormItems(items)) == multiset(NormItems(items[1..])) + multiset{Norm(items[0])}
  {
    assert NormItems(items) == [Norm(items[0])] + NormItems(items[1..]);
  }

  /** The unfolding of the pairing. */
  lemma ReorderedStep(a: seq<Json>, b: seq<Json>)
    requires a != []
    ensures ReorderedItems(a, b) <==>
            exists k :: 0 <= k < |b| && Reordered(a[0], b[k]) && ReorderedItems(a[1..], Without(b, k))
  {
  }

  lemma {:induction false} WithoutWellFormed(items: seq<Json>, k: nat)
    requires AllWellFormed(items) && k < |items|
    ensures AllWellFormed(Without(items, k)) && WellFormed(items[k])
  {
    WellFormedAt(items, k);
    forall i | 0 <= i < |Without(items, k)|
      ensures WellFormed(Without(items, k)[i])
    {
      WellFormedAt(items, if i < k then i else i + 1);
    }
    WellFormedAll(Without(items, k));
  }

  /** Two values have one normal form exactly when they differ only by reordering arrays. */
  lemma {:induction false} NormCanonical(v: Json, w: Json)
    requires WellFormed(v) && WellFormed(w)
    ensures Norm(v) == Norm(w) <==> Reordered(v, w)
    decreases v, 0
  {
    match (v, w) {
      case (Array(a), Array(b)) =>
        NormItemsCanonical(a, b);
        SortFacts(NormItems(a));
        SortFacts(NormItems(b));
        NormWellFormed(v);
        NormWellFormed(w);
        if multiset(NormItems(a)) == multiset(NormItems(b)) {
          SortedUnique(SortByText(NormItems(a)), SortByText(NormItems(b)));
        }
      case (Object(a), Object(b)) =>
        NormFieldsCanonical(a, b);
      case _ =>
    }
  }

  lemma {:induction false} NormItemsCanonical(a: seq<Json>, b: seq<Json>)
    requires AllWellFormed(a) && AllWellFormed(b)
    ensures multiset(NormItems(a)) == multiset(NormItems(b)) <==> ReorderedItems(a, b)
    decreases a, 1
  {
    if a == [] {
      if b != [] {
        assert NormItems(b)[0] in multiset(NormItems(b));
      }
    } else {
      forall k | 0 <= k < |b|
        ensures Reordered(a[0], b[k]) <==> Norm(a[0]) == Norm(b[k])
        ensures ReorderedItems(a[1..], Without(b, k))
                <==> multiset(NormItems(a[1..])) == multiset(NormItems(Without(b, k)))
      {
        WithoutWellFormed(b, k);
        NormCanonical(a[0], b[k]);
        NormItemsCanonical(a[1..], Without(b, k));
      }
      PairOff(a, b);
    }
  }

  /** Pairing the first item off means finding its normal form among the other list's. */
  lemma PairOff(a: seq<Json>, b: seq<Json>)
    requires a != []
    requires forall k :: 0 <= k < |b| ==>
               && (Reordered(a[0], b[k]) <==> Norm(a[0]) == Norm(b[k]))
               && (ReorderedItems(a[1..], Without(b, k))
                   <==> multiset(NormItems(a[1..])) == multiset(NormItems(Without(b, k))))
    ensures multiset(NormItems(a)) == multiset(NormItems(b)) <==> ReorderedItems(a, b)
  {
    hide Norm;
    hide NormItems;
    hide Reordered;
    hide ReorderedItems;
    hide Without;
    var first, rest := Norm(a[0]), multiset(NormItems(a[1..]));
    NormItemsCons(a);
    ReorderedStep(a, b);
    if multiset(NormItems(a)) == multiset(NormItems(b)) {
      assert first in multiset(NormItems(b));
      var k :| 0 <= k < |b| && NormItems(b)[k] == first;
      NormItemsWithout(b, k);
      assert multiset(NormItems(Without(b, k))) == multiset(NormItems(b)) - multiset{first} == rest;
      assert Reordered(a[0], b[k]) && ReorderedItems(a[1..], Without(b, k));
    }
    if ReorderedItems(a, b) {
      var k :| 0 <= k < |b| && Reordered(a[0], b[k]) && ReorderedItems(a[1..], Without(b, k));
      NormItemsWithout(b, k);
    }
  }

  lemma {:induction false} NormFieldsCanonical(a: seq<Field>, b: seq<Field>)
    requires AllFieldsWellFormed(a) && AllFieldsWellFormed(b)
    ensures NormFields(a) == NormFields(b) <==> ReorderedFields(a, b)
    decreases a, 1
  {
    if a != [] && b != [] {
      NormCanonical(a[0].value, b[0].value);
      NormFieldsCanonical(a[1..], b[1..]);
      var x, y := NormFields(a), NormFields(b);
      assert x[1..] == NormFields(a[1..]) && y[1..] == NormFields(b[1..]);
      assert x[0].value == Norm(a[0].value) && y[0].value == Norm(b[0].value);
    }
  }

  /** Normalising twice changes nothing. */
  lemma {:induction false} NormIdempotent(v: Json)
    requires WellFormed(v)
    ensures Norm(Norm(v)) == Norm(v)
    decreases v, 0
  {
    match v {
      case Array(items) =>
        var n := NormItems(items);
        NormItemsFixed(items);
        SortFacts(n);
        NormItemsWellFormed(items);
        PermutedWellFormed(n, SortByText(n));
        forall i | 0 <= i < |SortByText(n)|
          ensures Norm(SortByText(n)[i]) == SortByText(n)[i]
        {
          assert SortByText(n)[i] in multiset(SortByText(n));
          var k :| 0 <= k < |n| && n[k] == SortByText(n)[i];
        }
        AllFixed(SortByText(n));
        SortFacts(SortByText(n));
        PermutedWellFormed(n, SortByText(SortByText(n)));
        SortedUnique(SortByText(SortByText(n)), SortByText(n));
      case Object(fields) =>
        NormFieldsFixed(fields);
      case _ =>
    }
  }

  /** Normalising only reorders arrays. */
  lemma NormOnlyReorders(v: Json)
    requires WellFormed(v)
    ensures Reordered(v, Norm(v))
  {
    NormWellFormed(v);
    NormIdempotent(v);
    NormCanonical(v, Norm(v));
  }

  lemma {:induction false} AllFixed(items: seq<Json>)
    requires forall i :: 0 <= i < |items| ==> Norm(items[i]) == items[i]
    ensures NormItems(items) == items
  {
    if items == [] {
    } else {
      AllFixed(items[1..]);
      assert items == [items[0]] + items[1..];
    }
  }

  lemma {:induction false} NormItemsFixed(items: seq<Json>)
    requires AllWellFormed(items)
    ensures forall i :: 0 <= i < |items| ==> Norm(NormItems(items)[i]) == NormItems(items)[i]
    decreases items, 1
  {
    if items == [] {
    } else {
      NormIdempotent(items[0]);
      NormItemsFixed(items[1..]);
    }
  }

  lemma {:induction false} NormFieldsFixed(fields: seq<Field>)
    requires AllFieldsWellFormed(fields)
    ensures NormFields(NormFields(fields)) == NormFields(fields)
    decreases fields, 1
  {
    if fields == [] {
    } else {
      NormIdempotent(fields[0].value);
      NormFieldsFixed(fields[1..]);
      assert NormFields(fields)[1..] == NormFields(fields[1..]);
    }
  }
}
