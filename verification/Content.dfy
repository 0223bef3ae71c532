/**
  The content index of content.c: rows read into an array that doubles when it is full, sorted by
  key, then found by binary search. Keys are compared as strcmp does, byte by byte.
 */
module Contents {

  datatype Row = Row(key: string, fildes: int)

  /** strcmp: negative, zero or positive. */
  function Compare(a: string, b: string): int {
    if a == "" && b == "" then 0
    else if a == "" then -1
    else if b == "" then 1
    else if a[0] != b[0] then a[0] as int - b[0] as int
    else Compare(a[1..], b[1..])
  }

  lemma {:induction false} CompareZero(a: string, b: string)
    ensures Compare(a, b) == 0 <==> a == b
  {
    if a != "" && b != "" {
      if a[0] == b[0] {
        CompareZero(a[1..], b[1..]);
        assert a == [a[0]] + a[1..] && b == [b[0]] + b[1..];
      }
    }
  }

  lemma {:induction false} CompareSwap(a: string, b: string)
    ensures Compare(a, b) < 0 <==> Compare(b, a) > 0
  {
    if a != "" && b != "" && a[0] == b[0] {
      CompareSwap(a[1..], b[1..]);
    }
  }

  lemma {:induction false} CompareTransitive(a: string, b: string, c: string)
    requires Compare(a, b) <= 0 && Compare(b, c) <= 0
    ensures Compare(a, c) <= 0
    ensures Compare(a, b) < 0 || Compare(b, c) < 0 ==> Compare(a, c) < 0
  {
    if a != "" && b != "" && c != "" && a[0] == b[0] == c[0] {
      CompareTransitive(a[1..], b[1..], c[1..]);
    }
  }

  /** The first difference decides, and a proper prefix comes first. */
  lemma {:induction false} CompareAt(a: string, x: char, s: string, y: char, t: string)
    requires x != y
    ensures Compare(a + ([x] + s), a + ([y] + t)) == x as int - y as int
    ensures Compare(a, a + ([x] + s)) < 0
  {
    if a == "" {
      assert [] + ([x] + s) == [x] + s && [] + ([y] + t) == [y] + t;
    } else {
      assert (a + ([x] + s))[1..] == a[1..] + ([x] + s) && (a + ([y] + t))[1..] == a[1..] + ([y] + t);
      CompareAt(a[1..], x, s, y, t);
    }
  }

  predicate Sorted(rows: seq<Row>) {
    forall i, j :: 0 <= i < j < |rows| ==> Compare(rows[i].key, rows[j].key) <= 0
  }

  /** What qsort promises. */
  predicate IsSorting(rows: seq<Row>, result: seq<Row>) {
    Sorted(result) && multiset(result) == multiset(rows)
  }

  lemma SortedCons(x: Row, rows: seq<Row>)
    requires Sorted(rows) && forall j :: 0 <= j < |rows| ==> Compare(x.key, rows[j].key) <= 0
    ensures Sorted([x] + rows)
  {}

  lemma {:induction false} Insert(rows: seq<Row>, x: Row) returns (result: seq<Row>)
    requires Sorted(rows)
    ensures Sorted(result) && multiset(result) == multiset(rows) + multiset{x}
    ensures forall j :: 0 <= j < |result| ==> result[j] == x || result[j] in rows
  {
    hide Compare;
    if rows == [] {
      result := [x];
    } else if Compare(x.key, rows[0].key) <= 0 {
      forall j | 0 < j < |rows| ensures Compare(x.key, rows[j].key) <= 0 {
        CompareTransitive(x.key, rows[0].key, rows[j].key);
      }
      SortedCons(x, rows);
      result := [x] + rows;
    } else {
      CompareSwap(rows[0].key, x.key);
      var tail := Insert(rows[1..], x);
      assert rows == [rows[0]] + rows[1..];
      SortedCons(rows[0], tail);
      result := [rows[0]] + tail;
    }
  }

  /** Every array can be sorted. */
  lemma {:induction false} SortingExists(rows: seq<Row>) returns (result: seq<Row>)
    ensures IsSorting(rows, result)
  {
    if rows == [] {
      result := [];
    } else {
      var tail := SortingExists(rows[1..]);
      result := Insert(tail, rows[0]);
      assert rows == [rows[0]] + rows[1..];
    }
  }

  class Content {
    var items: array<Row>
    var nitems: nat

    ghost predicate Valid()
      reads this, items
    {
      nitems <= items.Length && Sorted(items[..nitems])
    }

    ghost function Rows(): seq<Row>
      requires nitems <= items.Length
      reads this, items
    {
      items[..nitems]
    }

    /** content_init: loads all rows and sorts them. */
    constructor (rows: seq<Row>)
      ensures Valid() && multiset(Rows()) == multiset(rows) && fresh(items)
    {
      items := new Row[16];
      nitems := 0;
      new;
      Load(rows);
      Sort();
    }

    /** The load loop: there is room at every write, and growing keeps the rows read so far. */
    method Load(rows: seq<Row>)
      requires nitems == 0 && items.Length > 0
      modifies this, items
      ensures nitems < items.Length && Rows() == rows
      ensures items == old(items) || fresh(items)
    {
      var capacity := items.Length;
      var i := 0;
      while i < |rows|
        invariant 0 <= i <= |rows| && nitems == i < capacity == items.Length
        invariant items == old(items) || fresh(items)
        invariant Rows() == rows[..i]
      {
        items[nitems] := rows[i];
        nitems := nitems + 1;
        if nitems == capacity {
          capacity := capacity * 2;
          Grow(capacity);
        }
        i := i + 1;
      }
      assert rows[..i] == rows;
    }

    /** realloc() to a larger size. */
    method Grow(capacity: nat)
      requires nitems <= items.Length <= capacity
      modifies this`items
      ensures fresh(items) && items.Length == capacity && Rows() == old(Rows())
    {
      var bigger := new Row[capacity];
      forall i | 0 <= i < nitems {
        bigger[i] := items[i];
      }
      items := bigger;
    }

    /** qsort(): some sorted order of the same rows. */
    method Sort()
      requires nitems <= items.Length
      modifies items
      ensures Valid() && multiset(Rows()) == multiset(old(Rows()))
    {
      var rows := items[..nitems];
      ghost var some := SortingExists(rows);
      var result: seq<Row> :| IsSorting(rows, result);
      assert IsSorting(rows, result);
      SameLength(rows, result);
      forall i | 0 <= i < nitems {
        items[i] := result[i];
      }
      assert items[..nitems] == result;
    }

    /** The descriptor of some row with the key, or -1 when there is none, as a linear scan would tell. */
    method Get(key: string) returns (fildes: int)
      requires Valid()
      ensures (exists row :: row in Rows() && row.key == key) ==> Row(key, fildes) in Rows()
      ensures !(exists row :: row in Rows() && row.key == key) ==> fildes == -1
    {
      var lo, hi := 0, nitems - 1;
      while lo <= hi
        invariant 0 <= lo <= hi + 1 <= nitems
        invariant forall i :: 0 <= i < lo ==> Compare(key, items[i].key) > 0
        invariant forall i :: hi < i < nitems ==> Compare(key, items[i].key) < 0
        decreases hi - lo
      {
        var mid := lo + (hi - lo) / 2;
        var cmp := Compare(key, items[mid].key);
        CompareZero(key, items[mid].key);
        if cmp < 0 {
          forall i | mid < i < nitems ensures Compare(key, items[i].key) < 0 {
            CompareTransitive(key, items[mid].key, items[i].key);
          }
          hi := mid - 1;
        } else if cmp > 0 {
          forall i | 0 <= i < mid ensures Compare(key, items[i].key) > 0 {
            CompareSwap(items[mid].key, key);
            CompareTransitive(items[i].key, items[mid].key, key);
            CompareSwap(items[i].key, key);
          }
          lo := mid + 1;
        } else {
          assert items[mid] == Rows()[mid];
          return items[mid].fildes;
        }
      }
      CompareZero(key, key);
      assert forall i :: 0 <= i < nitems ==> Rows()[i].key != key;
      fildes := -1;
    }
  }

  lemma SameLength(a: seq<Row>, b: seq<Row>)
    requires multiset(a) == multiset(b)
    ensures |a| == |b|
  {
    assert |multiset(a)| == |a| && |multiset(b)| == |b|;
  }
}
