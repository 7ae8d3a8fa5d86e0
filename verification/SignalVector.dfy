/**
 An observed vector and the table models attached to it. A model shows one ordinary row per vector
 item, possibly mixed with custom rows of its own; two index translations keep the two aligned.
 */
module SignalVectors {
  import opened Prelude

  /**
   A table row. A custom row has no vector item. For an ordinary row, `original` is the item it was
   created from and `current` the vector item it stands for now; the code never reads `current`
   (and never refreshes `original` after an edit), it is what the mirror property speaks about.
   */
  datatype Row<T, C> =
    | Custom(cells: C)
    | Ordinary(cells: C, original: T, current: T)

  /** The items the ordinary rows stand for, top to bottom. */
  function Items<T, C>(rows: seq<Row<T, C>>): (s: seq<T>) {
    if rows == [] then []
    else (if rows[0].Ordinary? then [rows[0].current] else []) + Items(rows[1..])
  }

  /** Position of the `v`-th ordinary row, or the row count. */
  function ModelIndex<T, C>(rows: seq<Row<T, C>>, v: nat): (p: nat)
    ensures p <= |rows|
  {
    if rows == [] then 0
    else if rows[0].Custom? then 1 + ModelIndex(rows[1..], v)
    else if v == 0 then 0
    else 1 + ModelIndex(rows[1..], v - 1)
  }

  /** How many ordinary rows there are before position `p`. */
  function VectorIndex<T, C>(rows: seq<Row<T, C>>, p: int): nat {
    if 0 <= p < |rows| && rows[p].Ordinary? then |Items(rows[..p])| else |Items(rows)|
  }

  // ---------------------------------------------------------------------------------------------
  // Rows and items
  // ---------------------------------------------------------------------------------------------

  lemma ItemsCons<T, C>(rows: seq<Row<T, C>>)
    requires rows != []
    ensures Items(rows) == (if rows[0].Ordinary? then [rows[0].current] else []) + Items(rows[1..])
  {
  }

  lemma {:induction false} ItemsConcat<T, C>(a: seq<Row<T, C>>, b: seq<Row<T, C>>)
    ensures Items(a + b) == Items(a) + Items(b)
    decreases |a|
  {
    if a == [] {
      assert a + b == b;
    } else {
      assert (a + b)[1..] == a[1..] + b && (a + b)[0] == a[0];
      ItemsConcat(a[1..], b);
      ItemsCons(a);
      ItemsCons(a + b);
      hide Items;
    }
  }

  lemma ItemsOne<T, C>(row: Row<T, C>)
    ensures Items([row]) == if row.Ordinary? then [row.current] else []
  {
  }

  /** The v-th ordinary row: in front of it are exactly the first v items, and it is ordinary. */
  lemma {:induction false} ModelIndexIs<T, C>(rows: seq<Row<T, C>>, v: nat)
    ensures var p := ModelIndex(rows, v);
            && (v < |Items(rows)| ==>
                  && Items(rows[..p]) == Items(rows)[..v]
                  && p < |rows|
                  && rows[p].Ordinary?
                  && rows[p].current == Items(rows)[v])
            && (v >= |Items(rows)| ==> p == |rows| && rows[..p] == rows)
    decreases |rows|
  {
    if rows != [] && (rows[0].Custom? || v != 0) {
      var tail := rows[1..];
      var w: nat := if rows[0].Custom? then v else v - 1;
      ModelIndexIs(tail, w);
      var q := ModelIndex(tail, w);
      assert rows[..q + 1] == [rows[0]] + tail[..q];
      ItemsConcat([rows[0]], tail[..q]);
      ItemsOne(rows[0]);
    }
  }

  lemma FewerItemsBefore<T, C>(rows: seq<Row<T, C>>, q: nat, p: nat)
    requires q < p <= |rows| && rows[q].Ordinary?
    ensures |Items(rows[..q])| < |Items(rows[..p])|
  {
    assert rows[..p] == rows[..q] + rows[q..p];
    ItemsConcat(rows[..q], rows[q..p]);
    assert Items(rows[q..p]) == [rows[q].current] + Items(rows[q..p][1..]);
  }

  /** The two translations are inverse to each other on ordinary rows. */
  lemma TranslationsInvert<T, C>(rows: seq<Row<T, C>>, v: nat, p: nat)
    ensures v < |Items(rows)| ==> VectorIndex(rows, ModelIndex(rows, v)) == v
    ensures p < |rows| && rows[p].Ordinary? ==>
              VectorIndex(rows, p) < |Items(rows)| && ModelIndex(rows, VectorIndex(rows, p)) == p
  {
    if v < |Items(rows)| {
      ModelIndexIs(rows, v);
    }
    if p < |rows| && rows[p].Ordinary? {
      RowAt(rows, p);
      var q := ModelIndex(rows, VectorIndex(rows, p));
      ModelIndexIs(rows, VectorIndex(rows, p));
      if q < p {
        FewerItemsBefore(rows, q, p);
      } else if p < q {
        FewerItemsBefore(rows, p, q);
      }
    }
  }

  /** Splitting the items at an ordinary row. */
  lemma {:induction false} RowAt<T, C>(rows: seq<Row<T, C>>, p: nat)
    requires p < |rows|
    ensures Items(rows) == Items(rows[..p]) + Items([rows[p]]) + Items(rows[p + 1..])
    ensures Items([rows[p]]) == if rows[p].Ordinary? then [rows[p].current] else []
  {
    var a, b, c := rows[..p], [rows[p]], rows[p + 1..];
    assert rows == a + b + c;
    ItemsConcat(a + b, c);
    ItemsConcat(a, b);
    ItemsOne(rows[p]);
  }

  /** One ordinary row per item. */
  function OrdinaryRows<T, C>(items: seq<T>, getRow: T -> C): seq<Row<T, C>> {
    seq(|items|, i requires 0 <= i < |items| => Ordinary(getRow(items[i]), items[i], items[i]))
  }

  /** What the insert handler does to the rows. */
  function RowsAfterInsert<T, C>(rows: seq<Row<T, C>>, v: nat, item: T, cells: C): seq<Row<T, C>> {
    InsertAt(rows, ModelIndex(rows, v), Ordinary(cells, item, item))
  }

  lemma NoRows<T, C>(getRow: T -> C)
    ensures OrdinaryRows([], getRow) == []
  {
  }

  /** Behind rows that stand for the first items, the handler appends the row of the next one. */
  lemma RowAppended<T, C>(rows: seq<Row<T, C>>, items: seq<T>, i: nat, getRow: T -> C)
    requires i < |items| && Items(rows + OrdinaryRows(items[..i], getRow)) == items[..i]
    ensures RowsAfterInsert(rows + OrdinaryRows(items[..i], getRow), i, items[i], getRow(items[i]))
            == rows + OrdinaryRows(items[..i + 1], getRow)
    ensures InsertAt(items[..i], i, items[i]) == items[..i + 1]
  {
    ModelIndexIs(rows + OrdinaryRows(items[..i], getRow), i);
    hide Items, ModelIndex;
    assert OrdinaryRows(items[..i + 1], getRow)
        == OrdinaryRows(items[..i], getRow) + [Ordinary(getRow(items[i]), items[i], items[i])];
  }

  /** What the remove handler does to the rows. */
  function RowsAfterRemove<T, C>(rows: seq<Row<T, C>>, v: nat): seq<Row<T, C>>
    requires v < |Items(rows)|
  {
    ModelIndexIs(rows, v);
    Prelude.RemoveAt(rows, ModelIndex(rows, v))
  }

  /** The new row comes directly in front of the v-th ordinary row, or behind all rows if there is none. */
  ghost predicate InFrontOf<T, C>(rows: seq<Row<T, C>>, v: nat, p: nat) {
    if v < |Items(rows)| then p < |rows| && rows[p].Ordinary? && Items(rows[..p]) == Items(rows)[..v]
    else p == |rows|
  }

  lemma InsertedRow<T, C>(rows: seq<Row<T, C>>, v: nat, item: T, cells: C)
    requires v <= |Items(rows)|
    ensures Items(RowsAfterInsert(rows, v, item, cells)) == InsertAt(Items(rows), v, item)
    ensures exists p: nat :: InFrontOf(rows, v, p) && p <= |rows|
                             && RowsAfterInsert(rows, v, item, cells)
                                == rows[..p] + [Ordinary(cells, item, item)] + rows[p..]
  {
    var p, row := ModelIndex(rows, v), Ordinary(cells, item, item);
    ModelIndexIs(rows, v);
    assert rows == rows[..p] + rows[p..];
    ItemsConcat(rows[..p], rows[p..]);
    ItemsConcat(rows[..p] + [row], rows[p..]);
    ItemsConcat(rows[..p], [row]);
    ItemsOne(row);
    assert Items(rows[p..]) == Items(rows)[v..];
    assert InFrontOf(rows, v, p);
  }

  lemma RemovedRow<T, C>(rows: seq<Row<T, C>>, v: nat)
    requires v < |Items(rows)|
    ensures Items(RowsAfterRemove(rows, v)) == Prelude.RemoveAt(Items(rows), v)
    ensures exists p: nat :: InFrontOf(rows, v, p) && p < |rows|
                             && RowsAfterRemove(rows, v) == rows[..p] + rows[p + 1..]
  {
    var p := ModelIndex(rows, v);
    ModelIndexIs(rows, v);
    RowAt(rows, p);
    ItemsConcat(rows[..p], rows[p + 1..]);
    assert Items(rows[p + 1..]) == Items(rows)[v + 1..];
    assert InFrontOf(rows, v, p);
  }

  lemma {:induction false} CustomRowIsInvisible<T, C>(rows: seq<Row<T, C>>, p: nat, cells: C)
    requires p <= |rows|
    ensures Items(InsertAt(rows, p, Custom(cells))) == Items(rows)
  {
    assert rows == rows[..p] + rows[p..];
    ItemsConcat(rows[..p], rows[p..]);
    ItemsConcat(rows[..p] + [Custom(cells)], rows[p..]);
    ItemsConcat(rows[..p], [Custom(cells)]);
    ItemsOne<T, C>(Custom(cells));
  }

  lemma CustomRowLeavesNoTrace<T, C>(rows: seq<Row<T, C>>, p: nat)
    requires p < |rows| && rows[p].Custom?
    ensures Items(Prelude.RemoveAt(rows, p)) == Items(rows)
  {
    RowAt(rows, p);
    ItemsConcat(rows[..p], rows[p + 1..]);
    hide Items;
    assert Items(rows[..p]) + [] == Items(rows[..p]);
  }

  /** Changing one row in place changes at most the item it stands for. */
  lemma ReplacedRow<T, C>(rows: seq<Row<T, C>>, p: nat, row: Row<T, C>)
    requires p < |rows| && rows[p].Custom? == row.Custom?
    ensures Items(rows[p := row]) ==
            if row.Custom? then Items(rows) else Items(rows[..p]) + [row.current] + Items(rows[p + 1..])
    ensures VectorIndex(rows[p := row], p) == VectorIndex(rows, p)
  {
    RowAt(rows, p);
    RowAt(rows[p := row], p);
    assert rows[p := row][..p] == rows[..p] && rows[p := row][p + 1..] == rows[p + 1..];
    hide Items;
    assert Items(rows[..p]) + [] == Items(rows[..p]);
  }

  /** An edited row stands for the new item, in the place of the old one. */
  lemma EditedRow<T, C>(rows: seq<Row<T, C>>, p: nat, cells: C, item: T)
    requires p < |rows| && rows[p].Ordinary?
    ensures var v := VectorIndex(rows, p);
            && v < |Items(rows)|
            && Items(rows[p := Ordinary(cells, rows[p].original, rows[p].current)]) == Items(rows)
            && VectorIndex(rows[p := Ordinary(cells, rows[p].original, rows[p].current)], p) == v
            && Items(rows[p := Ordinary(cells, rows[p].original, item)])
               == InsertAt(Prelude.RemoveAt(Items(rows), v), v, item)
  {
    RowAt(rows, p);
    ReplacedRow(rows, p, Ordinary(cells, rows[p].original, rows[p].current));
    ReplacedRow(rows, p, Ordinary(cells, rows[p].original, item));
    ReplacedInside(Items(rows[..p]), rows[p].current, Items(rows[p + 1..]), item);
    hide Items, InsertAt, Prelude.RemoveAt;
  }

  lemma ReplacedInside<T>(a: seq<T>, x: T, b: seq<T>, y: T)
    ensures InsertAt(Prelude.RemoveAt(a + [x] + b, |a|), |a|, y) == a + [y] + b
  {
    assert Prelude.RemoveAt(a + [x] + b, |a|) == a + b;
    assert (a + b)[..|a|] == a && (a + b)[|a|..] == b;
  }

  // ---------------------------------------------------------------------------------------------
  // Sorted vectors
  // ---------------------------------------------------------------------------------------------

  ghost predicate StrictWeakOrder<T(!new)>(less: (T, T) -> bool) {
    && (forall x :: !less(x, x))
    && (forall x, y, z :: less(x, y) && less(y, z) ==> less(x, z))
    && (forall x, y, z :: !less(x, y) && !less(y, z) ==> !less(x, z))
  }

  ghost predicate SortedBy<T>(less: (T, T) -> bool, items: seq<T>) {
    forall i, j :: 0 <= i < j < |items| ==> !less(items[j], items[i])
  }

  /** What `std::lower_bound` returns: everything in front of `at` is less than `x`, nothing else is. */
  ghost predicate IsLowerBound<T>(less: (T, T) -> bool, items: seq<T>, x: T, at: nat) {
    && at <= |items|
    && (forall i :: 0 <= i < at ==> less(items[i], x))
    && (forall i :: at <= i < |items| ==> !less(items[i], x))
  }

  lemma InsertKeepsSorted<T(!new)>(less: (T, T) -> bool, items: seq<T>, x: T, at: nat)
    requires StrictWeakOrder(less) && SortedBy(less, items) && IsLowerBound(less, items, x, at)
    ensures SortedBy(less, InsertAt(items, at, x))
  {
  }

  /** When two insertions of the same item give the same sequence. */
  lemma SameInsertion<T>(w: seq<T>, a: nat, b: nat, x: T)
    requires a <= b <= |w|
    ensures InsertAt(w, a, x) == InsertAt(w, b, x) <==> forall i :: a <= i < b ==> w[i] == x
  {
    var u, v := InsertAt(w, a, x), InsertAt(w, b, x);
    InsertAtIndex(w, a, x);
    InsertAtIndex(w, b, x);
    if u == v {
      var i := b;
      while a < i
        invariant a <= i <= b
        invariant forall j :: i <= j < b ==> w[j] == x
      {
        i := i - 1;
        assert u[i + 1] == w[i] && v[i + 1] == if i + 1 == b then x else w[i + 1];
      }
    }
  }

  /**
   An edit in a sorted vector takes item `v` out and puts the edited item back at its lower bound.
   The edited row stays where it is, so it still mirrors the vector exactly when nothing but copies
   of the edited item lies between the two places (in particular when they coincide).
   */
  lemma SortedEditAligned<T(!new)>(less: (T, T) -> bool, w: seq<T>, v: nat, at: nat, x: T)
    requires StrictWeakOrder(less) && v <= |w| && IsLowerBound(less, w, x, at)
    ensures InsertAt(w, at, x) == InsertAt(w, v, x) <==> at <= v && forall i :: at <= i < v ==> w[i] == x
  {
    if at <= v {
      SameInsertion(w, at, v, x);
    } else {
      SameInsertion(w, v, at, x);
      assert less(w[v], x) && !less(x, x);
    }
  }

  // ---------------------------------------------------------------------------------------------
  // The vector
  // ---------------------------------------------------------------------------------------------

  /**
   What a concrete table supplies: cells for an item, an edit of one cell, and the item that a row's
   cells spell out given the item it was created from (and the edit that caused the question).
   */
  datatype Binding<!T, !C, !E> = Binding(
    getRowFromItem: T -> C,
    setCell: (C, nat, E) -> C,
    getItemFromRow: (C, T, Option<(nat, E)>) -> T)

  class SignalVector<T(!new, ==), C, E> {
    var items: seq<T>
    var readOnly: seq<T>
    const itemCompare: Option<(T, T) -> bool>
    var models: seq<RowModel<T, C, E>>

    ghost predicate Valid()
      reads this
    {
      && readOnly == items
      && (forall i, j :: 0 <= i < j < |models| ==> models[i] != models[j])
      && (itemCompare.Some? ==> StrictWeakOrder(itemCompare.value) && SortedBy(itemCompare.value, items))
    }

    ghost function Attached(): set<RowModel<T, C, E>>
      reads this
    {
      set m | m in models
    }

    /** Every attached model, except possibly the one that causes a change, shows exactly the items. */
    ghost predicate MirroredBut(caller: RowModel?<T, C, E>)
      reads this, models
    {
      forall m :: m in models && m != caller ==> Items(m.rows) == items
    }

    constructor (itemCompare: Option<(T, T) -> bool>)
      requires itemCompare.Some? ==> StrictWeakOrder(itemCompare.value)
      ensures Valid() && MirroredBut(null) && items == [] && models == [] && this.itemCompare == itemCompare
    {
      this.itemCompare := itemCompare;
      items, readOnly, models := [], [], [];
    }

    method LowerBound(item: T) returns (at: nat)
      requires Valid() && itemCompare.Some?
      ensures IsLowerBound(itemCompare.value, items, item, at)
    {
      var less := itemCompare.value;
      var hi := |items|;
      at := 0;
      while at < hi
        invariant at <= hi <= |items|
        invariant forall i :: 0 <= i < at ==> less(items[i], item)
        invariant forall i :: hi <= i < |items| ==> !less(items[i], item)
      {
        var mid := (at + hi) / 2;
        if less(items[mid], item) {
          forall i | 0 <= i < mid ensures less(items[i], item) {
            assert !less(items[mid], items[i]);
          }
          at := mid + 1;
        } else {
          forall i | mid <= i < |items| ensures !less(items[i], item) {
            assert i > mid ==> !less(items[i], items[mid]);
          }
          hi := mid;
        }
      }
    }

    /** Inserts and tells every model; a sorted vector chooses the index itself. */
    method Insert(item: T, proposedIndex: int, caller: RowModel?<T, C, E>) returns (index: nat)
      requires Valid() && MirroredBut(caller)
      requires itemCompare.None? ==> proposedIndex == -1 || 0 <= proposedIndex <= |items|
      modifies this`items, this`readOnly, Attached()`rows
      ensures Valid() && MirroredBut(caller)
      ensures index <= |old(items)| && items == InsertAt(old(items), index, item)
      ensures if itemCompare.Some? then IsLowerBound(itemCompare.value, old(items), item, index)
              else index == if proposedIndex == -1 then |old(items)| else proposedIndex
      ensures forall m :: m in models ==>
                m.rows == if m == caller then old(m.rows)
                          else RowsAfterInsert(old(m.rows), index, item, m.binding.getRowFromItem(item))
    {
      hide Items, RowsAfterInsert;
      if itemCompare.Some? {
        index := LowerBound(item);
        InsertKeepsSorted(itemCompare.value, items, item, index);
      } else {
        index := if proposedIndex == -1 then |items| else proposedIndex;
      }
      ghost var before := items;
      items := InsertAt(items, index, item);
      readOnly := items;
      for k := 0 to |models|
        modifies Attached()`rows
        invariant forall j :: 0 <= j < k ==>
            models[j].rows == if models[j] == caller then old(models[j].rows)
                              else RowsAfterInsert(old(models[j].rows), index, item, models[j].binding.getRowFromItem(item))
        invariant forall j :: k <= j < |models| ==> models[j].rows == old(models[j].rows)
      {
        models[k].OnItemInserted(item, index, caller);
      }
      forall m | m in models && m != caller ensures Items(m.rows) == items {
        InsertedRow(old(m.rows), index, item, m.binding.getRowFromItem(item));
      }
    }

    method RemoveAt(index: nat, caller: RowModel?<T, C, E>)
      requires Valid() && MirroredBut(caller) && index < |items|
      modifies this`items, this`readOnly, Attached()`rows
      ensures Valid() && MirroredBut(caller)
      ensures items == Prelude.RemoveAt(old(items), index)
      ensures forall m :: m in models ==>
                m.rows == if m == caller then old(m.rows) else RowsAfterRemove(old(m.rows), index)
    {
      hide Items, RowsAfterRemove;
      items := Prelude.RemoveAt(items, index);
      readOnly := items;
      for k := 0 to |models|
        modifies Attached()`rows
        invariant forall j :: 0 <= j < k ==>
            models[j].rows == if models[j] == caller then old(models[j].rows) else RowsAfterRemove(old(models[j].rows), index)
        invariant forall j :: k <= j < |models| ==> models[j].rows == old(models[j].rows)
      {
        models[k].OnItemRemoved(index, caller);
      }
      forall m | m in models && m != caller ensures Items(m.rows) == items {
        RemovedRow(old(m.rows), index);
      }
    }

    /** Removes the first item the matcher accepts. */
    method RemoveFirstMatching(matcher: T -> bool, caller: RowModel?<T, C, E>) returns (removed: bool)
      requires Valid() && MirroredBut(caller)
      modifies this`items, this`readOnly, Attached()`rows
      ensures Valid() && MirroredBut(caller)
      ensures removed <==> exists i :: 0 <= i < |old(items)| && matcher(old(items)[i])
      ensures !removed ==> items == old(items)
      ensures removed ==> exists i :: 0 <= i < |old(items)| && matcher(old(items)[i])
                                      && (forall j :: 0 <= j < i ==> !matcher(old(items)[j]))
                                      && items == Prelude.RemoveAt(old(items), i)
    {
      for i := 0 to |items|
        invariant items == old(items) && Valid() && MirroredBut(caller)
        invariant forall j :: 0 <= j < i ==> !matcher(items[j])
      {
        if matcher(items[i]) {
          RemoveAt(i, caller);
          return true;
        }
      }
      return false;
    }

    /** Drops all items; the models drop all rows, custom ones included. */
    method Clear()
      requires Valid()
      modifies this`items, this`readOnly, Attached()`rows
      ensures Valid() && MirroredBut(null) && items == []
      ensures forall m :: m in models ==> m.rows == []
    {
      items, readOnly := [], [];
      for k := 0 to |models|
        modifies Attached()`rows
        invariant forall j :: 0 <= j < k ==> models[j].rows == []
      {
        models[k].OnItemsCleared();
      }
    }
  }

  // ---------------------------------------------------------------------------------------------
  // The models
  // ---------------------------------------------------------------------------------------------

  class RowModel<T(!new, ==), C, E> {
    var rows: seq<Row<T, C>>
    var vector: SignalVector?<T, C, E>
    const columnCount: nat
    const binding: Binding<T, C, E>

    constructor (columnCount: nat, binding: Binding<T, C, E>)
      ensures rows == [] && vector == null && this.columnCount == columnCount && this.binding == binding
    {
      this.columnCount, this.binding := columnCount, binding;
      rows, vector := [], null;
    }

    /** Attached to a vector that all its models mirror. */
    ghost predicate Live()
      reads this, vector, if vector == null then {} else set m | m in vector.models
    {
      vector != null && vector.Valid() && this in vector.models && vector.MirroredBut(null)
    }

    method GetModelIndexFromVectorIndex(v: nat) returns (modelIndex: nat)
      ensures modelIndex == ModelIndex(rows, v)
    {
      var vectorIndex := v;
      modelIndex := 0;
      while modelIndex < |rows|
        invariant modelIndex <= |rows| && modelIndex <= vectorIndex
        invariant ModelIndex(rows, v) == modelIndex + ModelIndex(rows[modelIndex..], vectorIndex - modelIndex)
      {
        if rows[modelIndex].Custom? {
          vectorIndex := vectorIndex + 1;
        }
        if modelIndex == vectorIndex {
          return;
        }
        modelIndex := modelIndex + 1;
      }
    }

    method GetVectorIndexFromModelIndex(p: int) returns (i: nat)
      ensures i == VectorIndex(rows, p)
      ensures 0 <= p < |rows| && rows[p].Ordinary? ==>
                i < |Items(rows)| && Items(rows[..p]) == Items(rows)[..i] && Items(rows)[i] == rows[p].current
      ensures !(0 <= p < |rows| && rows[p].Ordinary?) ==> i == |Items(rows)|
    {
      var index := p;
      i := 0;
      for k := 0 to |rows|
        invariant i == |Items(rows[..k])| && index == p - (k - i)
        invariant 0 <= p < k ==> rows[p].Custom?
      {
        assert rows[..k + 1] == rows[..k] + [rows[k]];
        ItemsConcat(rows[..k], [rows[k]]);
        ItemsOne(rows[k]);
        if rows[k].Custom? {
          index := index - 1;
        } else {
          if i == index {
            RowAt(rows, k);
            return;
          }
          i := i + 1;
        }
      }
      assert rows[..|rows|] == rows;
    }

    method OnItemInserted(item: T, index: nat, caller: RowModel?<T, C, E>)
      modifies this`rows
      ensures rows == if this == caller then old(rows)
                      else RowsAfterInsert(old(rows), index, item, binding.getRowFromItem(item))
    {
      if caller == this {
        return;
      }
      var row := GetModelIndexFromVectorIndex(index);
      rows := rows[..row] + [Ordinary(binding.getRowFromItem(item), item, item)] + rows[row..];
    }

    method OnItemRemoved(index: nat, caller: RowModel?<T, C, E>)
      requires this != caller ==> index < |Items(rows)|
      modifies this`rows
      ensures rows == if this == caller then old(rows) else RowsAfterRemove(old(rows), index)
    {
      if caller == this {
        return;
      }
      var row := GetModelIndexFromVectorIndex(index);
      ModelIndexIs(rows, index);
      rows := rows[..row] + rows[row + 1..];
    }

    method OnItemsCleared()
      modifies this`rows
      ensures rows == []
    {
      rows := [];
    }

    /** Attaches to a vector: one row per item, appended in order; custom rows may already be there. */
    method Initialize(vec: SignalVector<T, C, E>)
      requires vec.Valid() && vec.MirroredBut(null) && this !in vec.models
      requires Items(rows) == []
      modifies this, vec`models
      ensures Live() && vector == vec && vec.models == old(vec.models) + [this]
      ensures rows == old(rows) + OrdinaryRows(vec.items, binding.getRowFromItem)
      ensures forall m :: m in old(vec.models) ==> m.rows == old(m.rows)
    {
      hide Items, OrdinaryRows, RowsAfterInsert;
      NoRows(binding.getRowFromItem);
      for i := 0 to |vec.items|
        modifies this`rows
        invariant Items(rows) == vec.items[..i]
        invariant rows == old(rows) + OrdinaryRows(vec.items[..i], binding.getRowFromItem)
      {
        ghost var before := rows;
        OnItemInserted(vec.items[i], i, null);
        InsertedRow(before, i, vec.items[i], binding.getRowFromItem(vec.items[i]));
        RowAppended(old(rows), vec.items, i, binding.getRowFromItem);
      }
      assert vec.items[..|vec.items|] == vec.items;
      vector := vec;
      vec.models := vec.models + [this];
    }

    /**
     Edits one cell. For an ordinary row the vector item is taken out and the item the row now spells
     out is put back, with this model as the caller so that its own row stays in place.
     */
    method SetData(row: int, column: int, value: E) returns (ok: bool, ghost at: nat)
      requires Live()
      modifies this`rows, vector`items, vector`readOnly, vector.Attached()`rows
      ensures vector == old(vector) && vector.Valid() && vector.models == old(vector.models)
      ensures ok <==> 0 <= row < |old(rows)| && 0 <= column < columnCount
      ensures !ok ==> rows == old(rows) && vector.items == old(vector.items)
      ensures ok && old(rows)[row].Custom? ==>
                && vector.items == old(vector.items)
                && rows == old(rows)[row := Custom(binding.setCell(old(rows)[row].cells, column, value))]
      ensures ok && old(rows)[row].Ordinary? ==>
                var cells := binding.setCell(old(rows)[row].cells, column, value);
                var original := old(rows)[row].original;
                var item := binding.getItemFromRow(cells, original, Some((column as nat, value)));
                var v := VectorIndex(old(rows), row);
                && v < |old(vector.items)|
                && rows == old(rows)[row := Ordinary(cells, original, item)]
                && var others := Prelude.RemoveAt(old(vector.items), v);
                   && at <= |others| && vector.items == InsertAt(others, at, item)
                   && (if vector.itemCompare.Some? then IsLowerBound(vector.itemCompare.value, others, item, at)
                       else at == v)
                   && (Live() <==> at <= v && forall i :: at <= i < v ==> others[i] == item)
      ensures vector.MirroredBut(this)
      ensures vector.itemCompare.None? ==> Live()
    {
      at := 0;
      if row < 0 || column < 0 || row >= |rows| || column >= columnCount {
        return false, at;
      }
      var cells := binding.setCell(rows[row].cells, column, value);
      if rows[row].Custom? {
        ReplacedRow(rows, row, Custom(cells));
        rows := rows[row := Custom(cells)];
        return true, at;
      }
      var original := rows[row].original;
      ghost var before, items := rows, vector.items;
      rows := rows[row := Ordinary(cells, original, rows[row].current)];
      EditedRow(before, row, cells, binding.getItemFromRow(cells, original, Some((column as nat, value))));
      hide Items, VectorIndex, InsertAt, Prelude.RemoveAt;
      var vecRow := GetVectorIndexFromModelIndex(row);
      vector.RemoveAt(vecRow, this);
      var item := binding.getItemFromRow(cells, original, Some((column as nat, value)));
      rows := rows[row := Ordinary(cells, original, item)];
      var index := vector.Insert(item, vecRow, this);
      assert rows == before[row := Ordinary(cells, original, item)];
      if vector.itemCompare.Some? {
        SortedEditAligned(vector.itemCompare.value, Prelude.RemoveAt(items, vecRow), vecRow, index, item);
      }
      return true, index;
    }

    /** Removes one ordinary row through the vector. */
    method RemoveRows(row: int, count: int) returns (ok: bool)
      requires Live()
      requires count == 1 ==> 0 <= row < |rows| && rows[row].Ordinary?
      modifies this`rows, vector`items, vector`readOnly, vector.Attached()`rows
      ensures Live() && vector == old(vector)
      ensures ok == (count == 1)
      ensures ok ==> VectorIndex(old(rows), row) < |old(vector.items)|
      ensures vector.items == if ok then Prelude.RemoveAt(old(vector.items), VectorIndex(old(rows), row)) else old(vector.items)
      ensures rows == if ok then Prelude.RemoveAt(old(rows), row) else old(rows)
    {
      if count != 1 {
        return false;
      }
      TranslationsInvert(rows, 0, row);
      var signalVectorRow := GetVectorIndexFromModelIndex(row);
      vector.RemoveAt(signalVectorRow, null);
      return true;
    }

    /**
     Moves an ordinary row: the item its cells spell out leaves its place and is inserted before the
     ordinary row that is at `destinationChild` after the removal, or at the end if there is none.
     */
    method MoveRows(sourceRow: int, count: int, validParents: bool, destinationChild: int) returns (ok: bool, ghost at: nat)
      requires Live()
      requires count == 1 && validParents ==> 0 <= sourceRow < |rows| && rows[sourceRow].Ordinary?
      modifies this`rows, vector`items, vector`readOnly, vector.Attached()`rows
      ensures Live() && vector == old(vector)
      ensures ok == (count == 1 && validParents)
      ensures !ok ==> vector.items == old(vector.items) && rows == old(rows)
      ensures ok ==> VectorIndex(old(rows), sourceRow) < |old(vector.items)|
      ensures ok ==>
                var moved := old(rows)[sourceRow];
                var item := binding.getItemFromRow(moved.cells, moved.original, None);
                var staying := Prelude.RemoveAt(old(rows), sourceRow);
                var others := Prelude.RemoveAt(old(vector.items), VectorIndex(old(rows), sourceRow));
                && at <= |others| && vector.items == InsertAt(others, at, item)
                && rows == RowsAfterInsert(staying, at, item, binding.getRowFromItem(item))
                && (if vector.itemCompare.Some? then IsLowerBound(vector.itemCompare.value, others, item, at)
                    else if 0 <= destinationChild < |staying| && staying[destinationChild].Ordinary?
                    then Items(staying[..destinationChild]) == others[..at] && at < |others|
                    else at == |others|)
                // the vector is only reordered exactly if the row still spells out the item it stands for
                && (multiset(vector.items) == multiset(old(vector.items)) <==> item == moved.current)
    {
      at := 0;
      if count != 1 || !validParents {
        return false, at;
      }
      TranslationsInvert(rows, 0, sourceRow);
      var signalVectorRow := GetVectorIndexFromModelIndex(sourceRow);
      var item := binding.getItemFromRow(rows[sourceRow].cells, rows[sourceRow].original, None);
      vector.RemoveAt(signalVectorRow, null);
      assert rows == Prelude.RemoveAt(old(rows), sourceRow);
      VectorIndexInRange(rows, destinationChild);
      var target := GetVectorIndexFromModelIndex(destinationChild);
      var index := vector.Insert(item, target, null);
      RowAt(old(rows), sourceRow);
      MovePermutes(old(vector.items), signalVectorRow, index, item);
      return true, index;
    }

    method InsertCustomRow(cells: C, index: nat)
      requires Live() && index <= |rows|
      modifies this`rows
      ensures Live() && rows == InsertAt(old(rows), index, Custom(cells))
    {
      CustomRowIsInvisible(rows, index, cells);
      rows := InsertAt(rows, index, Custom(cells));
    }

    method RemoveCustomRow(index: nat)
      requires Live() && index < |rows| && rows[index].Custom?
      modifies this`rows
      ensures Live() && rows == Prelude.RemoveAt(old(rows), index)
    {
      CustomRowLeavesNoTrace(rows, index);
      rows := Prelude.RemoveAt(rows, index);
    }
  }

  lemma VectorIndexInRange<T, C>(rows: seq<Row<T, C>>, p: int)
    ensures VectorIndex(rows, p) <= |Items(rows)|
  {
    if 0 <= p < |rows| {
      RowAt(rows, p);
    }
  }

  /** Taking one item out and putting another one in reorders a vector exactly if they are the same. */
  lemma MovePermutes<T>(items: seq<T>, from: nat, at: nat, item: T)
    requires from < |items| && at < |items|
    ensures multiset(InsertAt(Prelude.RemoveAt(items, from), at, item)) == multiset(items) <==> item == items[from]
  {
    var others := Prelude.RemoveAt(items, from);
    assert items == items[..from] + [items[from]] + items[from + 1..];
    assert multiset(items) == multiset(others) + multiset{items[from]};
    assert others == others[..at] + others[at..];
    var moved := multiset(InsertAt(others, at, item));
    assert moved == multiset(others) + multiset{item};
    if moved == multiset(items) {
      assert moved[item] == multiset(items)[item];
    }
  }

  // ---------------------------------------------------------------------------------------------
  // Every run
  // ---------------------------------------------------------------------------------------------

  /** Something that happens to a vector or, through one of its attached models, to both. */
  datatype Event<!T, C, E> =
    | Insertion(item: T, proposedIndex: int)
    | Removal(index: nat)
    | MatchingRemoval(matcher: T -> bool)
    | Clearing
    | Edit(model: nat, row: int, column: int, value: E)
    | Move(model: nat, source: int, destination: int)
    | RowRemoval(model: nat, row: int)
    | CustomInsertion(model: nat, index: nat, cells: C)
    | CustomRemoval(model: nat, index: nat)

  /**
   Any sequence of events, in any order and with any number of models: afterwards the ordinary rows
   of every model stand for exactly the items of the vector. Events that would trip an assertion of
   the code are skipped. Edits are excluded for sorted vectors.
   */
  method Play<T(!new, ==), C, E>(vec: SignalVector<T, C, E>, events: seq<Event<T, C, E>>)
    requires vec.Valid() && vec.MirroredBut(null)
    requires forall m :: m in vec.models ==> m.vector == vec
    requires vec.itemCompare.Some? ==> forall e :: e in events ==> !e.Edit?
    modifies vec`items, vec`readOnly, vec.Attached()`rows
    ensures vec.Valid() && vec.MirroredBut(null)
    ensures vec.models == old(vec.models)
  {
    for k := 0 to |events|
      invariant vec.Valid() && vec.MirroredBut(null)
    {
      match events[k] {
        case Insertion(item, index) =>
          if index == -1 || 0 <= index <= |vec.items| {
            var _ := vec.Insert(item, index, null);
          }
        case Removal(index) =>
          if index < |vec.items| {
            vec.RemoveAt(index, null);
          }
        case MatchingRemoval(matcher) =>
          var _ := vec.RemoveFirstMatching(matcher, null);
        case Clearing =>
          vec.Clear();
        case Edit(i, row, column, value) =>
          if i < |vec.models| {
            assert events[k] in events;
            var _, _ := vec.models[i].SetData(row, column, value);
          }
        case Move(i, source, destination) =>
          if i < |vec.models| && 0 <= source < |vec.models[i].rows| && vec.models[i].rows[source].Ordinary? {
            var _, _ := vec.models[i].MoveRows(source, 1, true, destination);
          }
        case RowRemoval(i, row) =>
          if i < |vec.models| && 0 <= row < |vec.models[i].rows| && vec.models[i].rows[row].Ordinary? {
            var _ := vec.models[i].RemoveRows(row, 1);
          }
        case CustomInsertion(i, index, cells) =>
          if i < |vec.models| && index <= |vec.models[i].rows| {
            vec.models[i].InsertCustomRow(cells, index);
          }
        case CustomRemoval(i, index) =>
          if i < |vec.models| && index < |vec.models[i].rows| && vec.models[i].rows[index].Custom? {
            vec.models[i].RemoveCustomRow(index);
          }
      }
    }
  }

  /** An item with the identity of the object that holds it. */
  datatype Boxed = Boxed(identity: nat, content: int)

  /** A table that spells out a new object each time it is asked for a row's item. */
  function FreshItems(): Binding<Boxed, int, int> {
    Binding((item: Boxed) => item.content, (cells, column, value) => value,
            (cells, original: Boxed, edit) => Boxed(original.identity + 1, cells))
  }

  /** With such a table even moving a row to where it is replaces an item of the vector. */
  method MoveReplacesItem() returns (before: seq<Boxed>, after: seq<Boxed>)
    ensures multiset(before) != multiset(after)
    ensures |before| == |after| == 1 && before[0].content == after[0].content
  {
    var vec := new SignalVector<Boxed, int, int>(None);
    var _ := vec.Insert(Boxed(0, 7), -1, null);
    var model := new RowModel(1, FreshItems());
    model.Initialize(vec);
    before := vec.items;
    assert model.rows == [Ordinary(7, Boxed(0, 7), Boxed(0, 7))];
    var _, _ := model.MoveRows(0, 1, true, 0);
    after := vec.items;
  }

  /** Numbers that are their own cells. */
  function Numbers(): Binding<int, int, int> {
    Binding((item: int) => item, (cells, column, value) => value, (cells, original: int, edit) => cells)
  }

  predicate LessInt(a: int, b: int) { a < b }

  lemma NotBehind<T>(less: (T, T) -> bool, items: seq<T>, x: T, at: nat)
    requires IsLowerBound(less, items, x, at) && at < |items|
    ensures !less(items[at], x)
  {
  }

  /** An item that all others are less than goes to the end. */
  lemma LargestGoesLast<T>(less: (T, T) -> bool, items: seq<T>, x: T, at: nat)
    requires IsLowerBound(less, items, x, at) && forall i :: 0 <= i < |items| ==> less(items[i], x)
    ensures at == |items| && InsertAt(items, at, x) == items + [x]
  {
    if at < |items| {
      NotBehind(less, items, x, at);
    }
  }

  /** A sorted vector of 1 and 2 with one model attached. */
  method OneAndTwo() returns (vec: SignalVector<int, int, int>, model: RowModel<int, int, int>)
    ensures fresh(vec) && fresh(model) && model.vector == vec && model.Live()
    ensures vec.items == [1, 2] && vec.itemCompare == Some(LessInt)
    ensures vec.models == [model]
    ensures model.binding == Numbers() && model.columnCount == 1
    ensures model.rows == [Ordinary(1, 1, 1), Ordinary(2, 2, 2)]
  {
    vec := new SignalVector<int, int, int>(Some(LessInt));
    var one := vec.Insert(1, -1, null);
    assert vec.items == [1];
    var two := vec.Insert(2, -1, null);
    LargestGoesLast(LessInt, [1], 2, two);
    model := new RowModel(1, Numbers());
    model.Initialize(vec);
  }

  /** Editing its first row to 9 moves the item, but not the row: the model no longer mirrors the vector. */
  method SortedEditMisaligns() returns (items: seq<int>, shown: seq<int>)
    ensures items == [2, 9] && shown == [9, 2]
  {
    var vec, model := OneAndTwo();
    assert VectorIndex(model.rows, 0) == 0;
    hide InsertAt, Items;
    assert Prelude.RemoveAt([1, 2], 0) == [2];
    var _, at := model.SetData(0, 0, 9);
    LargestGoesLast(LessInt, [2], 9, at);
    items := vec.items;
    shown := Items(model.rows);
    TwoItems(model.rows);
    assert !model.Live();
  }

  lemma TwoItems(rows: seq<Row<int, int>>)
    requires |rows| == 2 && rows[0].Ordinary? && rows[1].Ordinary?
    ensures Items(rows) == [rows[0].current, rows[1].current]
  {
    ItemsCons(rows);
    ItemsCons(rows[1..]);
  }
}
