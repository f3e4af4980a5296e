/** Decoded secret data on the heap: nested maps and slices shared by reference, and the deep copy
    the cache keeps its own data with. */
module JsonHeap {

  /** What a piece of secret data says, apart from where it is stored. */
  datatype Json = Scalar(text: string) | Object(fields: map<string, Json>) | Array(items: seq<Json>)

  /** A value as the decoder hands it out. Maps and slices are references. */
  datatype Value = Leaf(text: string) | MapRef(cell: MapCell) | SliceRef(cells: array<Value>)

  class MapCell {
    var entries: map<string, Value>

    constructor ()
      ensures entries == map[]
    {
      entries := map[];
    }
  }

  /** v says j and is stored in objects of foot only. */
  ghost predicate Shows(v: Value, j: Json, foot: set<object>)
    reads foot
    decreases j
  {
    match v
    case Leaf(text) => j == Scalar(text)
    case MapRef(cell) =>
      && cell in foot && j.Object? && cell.entries.Keys == j.fields.Keys
      && forall k :: k in j.fields ==> Shows(cell.entries[k], j.fields[k], foot)
    case SliceRef(cells) =>
      && cells in foot && j.Array? && cells.Length == |j.items|
      && forall i :: 0 <= i < |j.items| ==> Shows(cells[i], j.items[i], foot)
  }

  lemma {:induction false} ShowsInMore(v: Value, j: Json, foot: set<object>, more: set<object>)
    requires Shows(v, j, foot) && foot <= more
    ensures Shows(v, j, more)
    decreases j
  {
    match v
    case Leaf(text) =>
    case MapRef(cell) =>
      forall k | k in j.fields ensures Shows(cell.entries[k], j.fields[k], more) {
        ShowsInMore(cell.entries[k], j.fields[k], foot, more);
      }
    case SliceRef(cells) =>
      forall i | 0 <= i < |j.items| ensures Shows(cells[i], j.items[i], more) {
        ShowsInMore(cells[i], j.items[i], foot, more);
      }
  }

  /** Data says one thing only. */
  lemma {:induction false} ShowsOneThing(v: Value, a: Json, b: Json, foot: set<object>)
    requires Shows(v, a, foot) && Shows(v, b, foot)
    ensures a == b
    decreases a
  {
    match v
    case Leaf(text) =>
    case MapRef(cell) =>
      forall k | k in a.fields ensures a.fields[k] == b.fields[k] {
        ShowsOneThing(cell.entries[k], a.fields[k], b.fields[k], foot);
      }
      assert a.fields == b.fields;
    case SliceRef(cells) =>
      forall i | 0 <= i < |a.items| ensures a.items[i] == b.items[i] {
        ShowsOneThing(cells[i], a.items[i], b.items[i], foot);
      }
      assert a.items == b.items;
  }

  /** cloneData: the same data in objects nobody else has. */
  method CloneData(m: MapCell, ghost j: Json, ghost foot: set<object>) returns (out: MapCell, ghost own: set<object>)
    requires Shows(MapRef(m), j, foot)
    ensures Shows(MapRef(out), j, own) && fresh(own)
    decreases j, 0
  {
    out := new MapCell();
    own := {out};
    ghost var parts: set<object> := {};
    var keys := m.entries.Keys;
    while keys != {}
      invariant fresh(out) && fresh(parts) && out !in parts
      invariant keys <= m.entries.Keys && out.entries.Keys == m.entries.Keys - keys
      invariant forall k :: k in out.entries ==> Shows(out.entries[k], j.fields[k], parts)
      invariant Shows(MapRef(m), j, foot)
      decreases keys
    {
      var k :| k in keys;
      var c, cOwn := CloneValue(m.entries[k], j.fields[k], foot);
      ghost var before := parts;
      parts := parts + cOwn;
      forall x | x in out.entries ensures Shows(out.entries[x], j.fields[x], parts) {
        ShowsInMore(out.entries[x], j.fields[x], before, parts);
      }
      ShowsInMore(c, j.fields[k], cOwn, parts);
      out.entries := out.entries[k := c];
      keys := keys - {k};
    }
    own := parts + {out};
    forall x | x in out.entries ensures Shows(out.entries[x], j.fields[x], own) {
      ShowsInMore(out.entries[x], j.fields[x], parts, own);
    }
  }

  /** cloneValue. */
  method CloneValue(v: Value, ghost j: Json, ghost foot: set<object>) returns (out: Value, ghost own: set<object>)
    requires Shows(v, j, foot)
    ensures Shows(out, j, own) && fresh(own)
    decreases j, 1
  {
    match v
    case Leaf(text) =>
      out, own := v, {};
    case MapRef(cell) =>
      var m;
      m, own := CloneData(cell, j, foot);
      out := MapRef(m);
    case SliceRef(cells) =>
      var a: array<Value>;
      a, own := CloneSlice(cells, j, foot);
      out := SliceRef(a);
  }

  method CloneSlice(cells: array<Value>, ghost j: Json, ghost foot: set<object>)
    returns (out: array<Value>, ghost own: set<object>)
    requires Shows(SliceRef(cells), j, foot)
    ensures Shows(SliceRef(out), j, own) && fresh(own)
    decreases j, 0
  {
    out := new Value[cells.Length](_ => Leaf(""));
    ghost var parts: set<object> := {};
    for i := 0 to cells.Length
      invariant fresh(out) && fresh(parts) && out !in parts
      invariant forall n :: 0 <= n < i ==> Shows(out[n], j.items[n], parts)
      invariant Shows(SliceRef(cells), j, foot)
    {
      var c, cOwn := CloneValue(cells[i], j.items[i], foot);
      ghost var before := parts;
      parts := parts + cOwn;
      forall n | 0 <= n < i ensures Shows(out[n], j.items[n], parts) {
        ShowsInMore(out[n], j.items[n], before, parts);
      }
      ShowsInMore(c, j.items[i], cOwn, parts);
      out[i] := c;
    }
    own := parts + {out};
    forall n | 0 <= n < cells.Length ensures Shows(out[n], j.items[n], own) {
      ShowsInMore(out[n], j.items[n], parts, own);
    }
  }
}
