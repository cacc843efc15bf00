/** The per-table id index on top of the B+ tree (`index/table_index.c`): rebuilt from the file when
    it is not loaded, extended row by row otherwise, dropped on demand. */
module TableIndex {
  import opened Basics
  import opened TableFile
  import D = Database
  import T = BPlusTree
  import Csv = CsvFormat

  lemma {:induction false} ParseRowsConcat(a: seq<Row>, b: seq<Row>)
    requires ParseRows(a).Ok?
    ensures ParseRows(a + b).Ok? <==> ParseRows(b).Ok?
    ensures ParseRows(b).Err? ==> ParseRows(a + b) == ParseRows(b)
  {
    hide Csv.ParseLine;
    if a == [] {
      assert a + b == b;
    } else {
      assert (a + b)[1..] == a[1..] + b;
      ParseRowsConcat(a[1..], b);
    }
  }

  /** One more row of a scan. */
  lemma ScanStep(f: string, off: nat, done: seq<Row>)
    requires off < |f| && ParseRows(done).Ok?
    ensures var text, next := LineText(f, off), LineEnd(f, off);
            && (text == "" ==> RowsFrom(f, off) == RowsFrom(f, next))
            && (text != "" ==> RowsFrom(f, off) == [Row(off, text)] + RowsFrom(f, next))
            && (text != "" && Csv.ParseLine(text).Ok? ==> ParseRows(done + [Row(off, text)]).Ok?)
            && (text != "" && Csv.ParseLine(text).Err? ==>
                  ParseRows(done + RowsFrom(f, off)) == Err(Csv.ParseLine(text).error))
  {
    hide ReadEnd, Csv.ParseLine, LineText;
    var row := Row(off, LineText(f, off));
    if row.text != "" {
      assert [row][1..] == [];
      ParseRowsConcat(done, [row]);
      ParseRowsConcat(done, RowsFrom(f, off));
    }
  }

  class Entry {
    const tableName: string
    var loaded: bool
    var nextId: int
    const tree: T.BPlusTree

    ghost function Repr(): set<object>
      reads tree
    {
      {this} + tree.Repr
    }

    ghost predicate Valid()
      reads this, tree, tree.Repr
    {
      tree.Valid() && this !in tree.Repr
    }

    ghost function View(): D.Index
      requires Valid()
      reads this, tree, tree.Repr
    {
      D.Index(loaded, nextId, tree.Contents())
    }

    constructor (tableName: string)
      ensures Valid() && fresh(Repr() - {this}) && this.tableName == tableName && View() == D.UNLOADED
    {
      this.tableName := tableName;
      loaded, nextId := false, 1;
      tree := new T.BPlusTree();
    }

    method Invalidate()
      requires Valid()
      modifies this, tree
      ensures Valid() && Repr() <= old(Repr()) && View() == D.UNLOADED
    {
      tree.Free();
      loaded, nextId := false, 1;
    }

    /** Enters one row under the next id. */
    method RebuildRow(internalId: int, row: Row, ghost done: seq<Row>) returns (next: int)
      requires Valid() && D.IndexOfRows(done) == D.Index(true, internalId, tree.Contents())
      modifies tree.Repr
      ensures Valid() && fresh(tree.Repr - old(tree.Repr))
      ensures loaded == old(loaded) && nextId == old(nextId)
      ensures D.IndexOfRows(done + [row]) == D.Index(true, next, tree.Contents())
    {
      hide T.BPlusTree.Valid;
      D.RegisteredRows(done, row);
      var ok := tree.Insert(internalId, row.offset);
      next := internalId + 1;
    }

    /** Enters every data row of the file under consecutive ids. */
    method Rebuild(f: string) returns (error: Option<D.LoadError>, next: int)
      requires Valid() && tree.Contents() == map[]
      modifies tree.Repr
      ensures Valid() && fresh(Repr() - old(Repr()))
      ensures loaded == old(loaded) && nextId == old(nextId)
      ensures f == "" ==> error == Some(D.EmptyFile)
      ensures f != "" ==> match ParseRows(DataRows(f))
                          case Err(e) => error == Some(D.BadRow(e))
                          case Ok(_) =>
                            error == None && D.IndexOfRows(DataRows(f)) == D.Index(true, next, tree.Contents())
    {
      hide ReadEnd, LineText, RowsFrom, ParseRows, Csv.ParseLine, D.IndexOfRows, T.BPlusTree.Valid,
          T.BPlusTree.Contents;
      next := 1;
      if f == "" {
        return Some(D.EmptyFile), next;
      }
      var off := LineEnd(f, 0);
      ghost var done: seq<Row> := [];
      NoRows(f);
      while off < |f|
        invariant off <= |f|
        invariant Valid() && fresh(tree.Repr - old(tree.Repr)) && loaded == old(loaded) && nextId == old(nextId)
        invariant DataRows(f) == done + RowsFrom(f, off) && ParseRows(done).Ok?
        invariant D.IndexOfRows(done) == D.Index(true, next, tree.Contents())
        decreases |f| - off
      {
        ScanStep(f, off, done);
        var rowOffset, line := off, LineText(f, off);
        off := LineEnd(f, off);
        if line == "" {
          continue;
        }
        var fields := Csv.ParseCsvLine(line);
        if fields.Err? {
          return Some(D.BadRow(fields.error)), next;
        }
        next := RebuildRow(next, Row(rowOffset, line), done);
        done := done + [Row(rowOffset, line)];
      }
      assert DataRows(f) == done;
      error := None;
    }

    lemma NoRows(f: string)
      ensures ParseRows([]).Ok? && D.IndexOfRows([]) == D.Index(true, 1, map[])
      ensures RowsFrom(f, |f|) == []
    {
    }

    method EnsureLoaded(file: File) returns (error: Option<D.LoadError>)
      requires Valid() && file !in Repr()
      modifies Repr()
      ensures Valid() && fresh(Repr() - old(Repr()))
      ensures (D.Table(file.bytes, View()), error) == D.EnsureLoaded(D.Table(file.bytes, old(View())))
    {
      hide DataRows, ParseRows, D.IndexOfRows, T.BPlusTree.Valid;
      error := None;
      if !loaded {
        tree.Free();
        var next;
        error, next := Rebuild(file.bytes);
        if error.Some? {
          tree.Free();
          loaded, nextId := false, 1;
        } else {
          loaded, nextId := true, next;
        }
      }
    }

    method GetNextId(file: File) returns (error: Option<D.LoadError>, next: int)
      requires Valid() && file !in Repr()
      modifies Repr()
      ensures Valid() && fresh(Repr() - old(Repr()))
      ensures (D.Table(file.bytes, View()), error) == D.EnsureLoaded(D.Table(file.bytes, old(View())))
      ensures next == View().nextId
    {
      error := EnsureLoaded(file);
      next := nextId;
    }

    /** `fails` stands for a registration that runs out of memory or is made to fail. */
    method RegisterRow(file: File, id: int, rowOffset: int, fails: bool) returns (ok: bool)
      requires Valid() && file !in Repr()
      modifies Repr()
      ensures Valid() && fresh(Repr() - old(Repr()))
      ensures (D.Table(file.bytes, View()), ok) == D.Register(D.Table(file.bytes, old(View())), id, rowOffset, fails)
    {
      hide DataRows, ParseRows, D.IndexOfRows, T.BPlusTree.Valid, D.EnsureLoaded;
      if fails {
        return false;
      }
      D.LoadedOrError(D.Table(file.bytes, View()));
      var error := EnsureLoaded(file);
      if error.Some? {
        return false;
      }
      ok := tree.Insert(id, rowOffset);
      if ok && id >= nextId {
        nextId := id + 1;
      }
    }

    method FindRow(file: File, id: int) returns (error: Option<D.LoadError>, offset: Option<int>)
      requires Valid() && file !in Repr()
      modifies Repr()
      ensures Valid() && fresh(Repr() - old(Repr()))
      ensures (D.Table(file.bytes, View()), error) == D.EnsureLoaded(D.Table(file.bytes, old(View())))
      ensures error.None? ==> offset == if id in View().ids then Some(View().ids[id]) else None
    {
      hide T.BPlusTree.Valid, D.EnsureLoaded;
      offset := None;
      error := EnsureLoaded(file);
      if error.None? {
        offset := tree.Search(id);
      }
    }
  }

  /** The position of a table's entry, or the length of the list. */
  function Position(items: seq<Entry>, name: string): (i: nat)
    ensures i <= |items| && (i < |items| ==> items[i].tableName == name)
    ensures forall j :: 0 <= j < i ==> items[j].tableName != name
  {
    if items == [] || items[0].tableName == name then 0 else 1 + Position(items[1..], name)
  }

  /** All table indexes, keyed by storage name. */
  class Registry {
    var items: seq<Entry>
    ghost var Repr: set<object>

    ghost predicate Valid()
      reads this, Repr
    {
      && this in Repr
      && (forall i :: 0 <= i < |items| ==> Owned(items[i]))
      && (forall i, j :: 0 <= i < j < |items| ==>
            items[i].tableName != items[j].tableName && items[i].Repr() !! items[j].Repr())
    }

    ghost predicate Owned(e: Entry)
      reads this, Repr
    {
      e in Repr && e.tree in Repr && e.Repr() <= Repr - {this} && e.Valid()
    }

    /** The state of a table's index; a table without an entry has an unloaded one. */
    ghost function ViewOf(name: string): D.Index
      requires Valid()
      reads this, Repr
    {
      var i := Position(items, name);
      if i < |items| then (assert Owned(items[i]); items[i].View()) else D.UNLOADED
    }

    constructor ()
      ensures Valid() && fresh(Repr) && items == []
    {
      items, Repr := [], {this};
    }

    method Find(name: string) returns (i: nat)
      ensures i == Position(items, name)
    {
      i := 0;
      while i < |items|
        invariant 0 <= i <= |items|
        invariant Position(items, name) == i + Position(items[i..], name)
      {
        if items[i].tableName == name {
          return;
        }
        assert items[i..][1..] == items[i + 1..];
        i := i + 1;
      }
    }

    method GetOrCreate(name: string) returns (i: nat)
      requires Valid()
      modifies this
      ensures Valid() && fresh(Repr - old(Repr)) && i < |items| && i == Position(items, name)
      ensures forall n :: ViewOf(n) == old(ViewOf(n))
    {
      hide Position, T.BPlusTree.Valid, T.BPlusTree.Contents, ViewOf;
      i := Find(name);
      if i == |items| {
        var e := new Entry(name);
        Add(e);
      }
    }

    method Add(e: Entry)
      requires Valid() && e.Valid() && e.Repr() !! Repr && e.View() == D.UNLOADED
      requires Position(items, e.tableName) == |items|
      modifies this
      ensures Valid() && Repr == old(Repr) + e.Repr() && items == old(items) + [e]
      ensures Position(items, e.tableName) == |items| - 1
      ensures forall n :: ViewOf(n) == old(ViewOf(n))
    {
      hide Position, T.BPlusTree.Valid, T.BPlusTree.Contents;
      Repr := Repr + e.Repr();
      PositionSnoc(items, e, e.tableName);
      forall n ensures Position(items + [e], n) == PositionAfter(items, e, n) {
        PositionSnoc(items, e, n);
      }
      items := items + [e];
      assert forall j :: 0 <= j < |old(items)| ==> items[j] == old(items)[j] && old(Owned(items[j]));
    }

    ghost function PositionAfter(items: seq<Entry>, e: Entry, n: string): nat {
      if Position(items, n) < |items| || n == e.tableName then Position(items, n) else |items| + 1
    }

    lemma {:induction false} PositionSnoc(items: seq<Entry>, e: Entry, n: string)
      ensures Position(items + [e], n) == PositionAfter(items, e, n)
      decreases |items|
    {
      if items == [] {
        assert items + [e] == [e] && [e][1..] == [];
      } else {
        assert (items + [e])[1..] == items[1..] + [e];
        PositionSnoc(items[1..], e, n);
      }
    }

    /** After an operation on entry `i` alone, the registry is valid again and only the view of
        that entry's table has changed. */
    twostate lemma Settled(i: nat)
      requires old(Valid()) && i < |items| && items == old(items)
      requires Repr == old(Repr) + items[i].Repr() && this !in items[i].Repr()
      requires items[i].Valid() && items[i].tree in Repr && fresh(items[i].Repr() - old(items[i].Repr()))
      requires forall o :: o in old(Repr) && o != this && o !in old(items[i].Repr()) ==> unchanged(o)
      ensures Valid()
      ensures i == Position(items, items[i].tableName) ==> ViewOf(items[i].tableName) == items[i].View()
      ensures forall n :: n != items[i].tableName ==> ViewOf(n) == old(ViewOf(n))
    {
      hide T.BPlusTree.Valid, T.BPlusTree.Contents;
      forall j | 0 <= j < |items| && j != i
        ensures Owned(items[j]) && items[j].Repr() == old(items[j].Repr()) && items[j].View() == old(items[j].View())
      {
        assert old(Owned(items[j]));
        assert old(items[i].Repr() !! items[j].Repr());
      }
    }

    method GetNextId(name: string, file: File) returns (error: Option<D.LoadError>, next: int)
      requires Valid() && file !in Repr
      modifies Repr
      ensures Valid() && fresh(Repr - old(Repr))
      ensures (D.Table(file.bytes, ViewOf(name)), error) == D.EnsureLoaded(D.Table(file.bytes, old(ViewOf(name))))
      ensures next == ViewOf(name).nextId
      ensures forall n :: n != name ==> ViewOf(n) == old(ViewOf(n))
    {
      hide T.BPlusTree.Valid, T.BPlusTree.Contents, D.EnsureLoaded, Position;
      var i := GetOrCreate(name);
      assert Owned(items[i]);
      label created:
      error, next := items[i].GetNextId(file);
      Repr := Repr + items[i].Repr();
      Settled@created(i);
    }

    method RegisterRow(name: string, file: File, id: int, rowOffset: int, fails: bool) returns (ok: bool)
      requires Valid() && file !in Repr
      modifies Repr
      ensures Valid() && fresh(Repr - old(Repr))
      ensures (D.Table(file.bytes, ViewOf(name)), ok) ==
              D.Register(D.Table(file.bytes, old(ViewOf(name))), id, rowOffset, fails)
      ensures forall n :: n != name ==> ViewOf(n) == old(ViewOf(n))
    {
      hide T.BPlusTree.Valid, T.BPlusTree.Contents, D.EnsureLoaded, Position;
      if fails {
        return false;
      }
      var i := GetOrCreate(name);
      assert Owned(items[i]);
      label created:
      ok := items[i].RegisterRow(file, id, rowOffset, false);
      Repr := Repr + items[i].Repr();
      Settled@created(i);
    }

    method FindRow(name: string, file: File, id: int) returns (error: Option<D.LoadError>, offset: Option<int>)
      requires Valid() && file !in Repr
      modifies Repr
      ensures Valid() && fresh(Repr - old(Repr))
      ensures (D.Table(file.bytes, ViewOf(name)), error) == D.EnsureLoaded(D.Table(file.bytes, old(ViewOf(name))))
      ensures error.None? ==> offset == if id in ViewOf(name).ids then Some(ViewOf(name).ids[id]) else None
      ensures forall n :: n != name ==> ViewOf(n) == old(ViewOf(n))
    {
      hide T.BPlusTree.Valid, T.BPlusTree.Contents, D.EnsureLoaded, Position;
      var i := GetOrCreate(name);
      assert Owned(items[i]);
      label created:
      error, offset := items[i].FindRow(file, id);
      Repr := Repr + items[i].Repr();
      Settled@created(i);
    }

    method Invalidate(name: string)
      requires Valid()
      modifies Repr
      ensures Valid() && fresh(Repr - old(Repr))
      ensures ViewOf(name) == D.UNLOADED
      ensures forall n :: n != name ==> ViewOf(n) == old(ViewOf(n))
    {
      hide T.BPlusTree.Valid, T.BPlusTree.Contents, Position;
      var i := Find(name);
      if i == |items| {
        return;
      }
      assert Owned(items[i]);
      label found:
      items[i].Invalidate();
      Repr := Repr + items[i].Repr();
      Settled@found(i);
    }

    /** Drops every index. */
    method Reset()
      requires Valid()
      modifies this
      ensures Valid() && Repr == old(Repr) && forall n :: ViewOf(n) == D.UNLOADED
    {
      items := [];
    }
  }
}
