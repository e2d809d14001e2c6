/**
 * The per-guild date store (`DatabaseTools`). Every guild owns one table,
 * `dates_<guild>`, created on the first insert; rows carry a UNIQUE label
 * (the `title` field; `label` is a Dafny keyword),
 * the ISO date text and the creator's id. The SQLite handle is modelled as a
 * map from table name to the table's rows in insertion order.
 */
module Database {
  import opened Wrappers
  import opened Escaping

  /** One row of a guild table: `label TEXT UNIQUE, date DATETIME, creator TEXT`. */
  datatype Row = Row(title: string, date: string, creator: string)

  /** The database: table name to rows, in storage (insertion) order. */
  type Tables = map<string, seq<Row>>

  const TablePrefix: string := "dates_"

  /** `DatabaseTools.guildTableName`. */
  function GuildTableName(guild: string): string
  {
    TablePrefix + guild
  }

  /** Distinct guild ids never share a table name (names compared exactly, letter case included). */
  lemma GuildTableNameInjective(g: string, h: string)
    ensures GuildTableName(g) == GuildTableName(h) <==> g == h
  {
    if GuildTableName(g) == GuildTableName(h) {
      assert g == GuildTableName(g)[|TablePrefix|..];
      assert h == GuildTableName(h)[|TablePrefix|..];
    }
  }

  predicate HasTitle(rows: seq<Row>, title: string)
  {
    exists i :: 0 <= i < |rows| && rows[i].title == title
  }

  /** What the UNIQUE constraint on `label` guarantees of every table. */
  ghost predicate UniqueTitles(rows: seq<Row>)
  {
    forall i, j :: 0 <= i < j < |rows| ==> rows[i].title != rows[j].title
  }

  ghost predicate ValidTables(t: Tables)
  {
    forall name :: name in t ==> UniqueTitles(t[name])
  }

  /** The rows `SELECT *` yields for a guild, or none when its table is absent. */
  function Rows(t: Tables, guild: string): seq<Row>
  {
    if GuildTableName(guild) in t then t[GuildTableName(guild)] else []
  }

  /** `db.get(... WHERE label = ...)`: the first row carrying the label. */
  function FindRow(rows: seq<Row>, title: string): (r: Option<Row>)
    ensures r.Some? <==> HasTitle(rows, title)
    ensures r.Some? ==> r.value in rows && r.value.title == title
  {
    if rows == [] then None
    else if rows[0].title == title then Some(rows[0])
    else
      var r := FindRow(rows[1..], title);
      assert HasTitle(rows, title) ==> HasTitle(rows[1..], title) by {
        if HasTitle(rows, title) {
          var i :| 0 <= i < |rows| && rows[i].title == title;
          assert rows[1..][i - 1].title == title;
        }
      }
      assert HasTitle(rows[1..], title) ==> HasTitle(rows, title) by {
        if HasTitle(rows[1..], title) {
          var i :| 0 <= i < |rows[1..]| && rows[1..][i].title == title;
          assert rows[i + 1].title == title;
        }
      }
      r
  }

  /** `getDate`: absent when the guild has no table or no row with the escaped label. */
  function Get(t: Tables, guild: string, title: string): (r: Option<Row>)
    ensures r.Some? <==> HasTitle(Rows(t, guild), EscapeLabel(title))
    ensures r.Some? ==> r.value in Rows(t, guild) && r.value.title == EscapeLabel(title)
  {
    if GuildTableName(guild) in t then FindRow(t[GuildTableName(guild)], EscapeLabel(title)) else None
  }

  /** The UNIQUE constraint admits the insert: no row carries the escaped label yet. */
  predicate Insertable(t: Tables, guild: string, title: string)
  {
    !HasTitle(Rows(t, guild), EscapeLabel(title))
  }

  /** `addDate` when it succeeds: the table exists and has the new row appended. */
  function Inserted(t: Tables, guild: string, title: string, date: string, creator: string): (r: Tables)
    ensures GuildTableName(guild) in r
    ensures Rows(r, guild) == Rows(t, guild) + [Row(EscapeLabel(title), date, creator)]
    ensures r.Keys == t.Keys + {GuildTableName(guild)}
    ensures forall n :: n in t && n != GuildTableName(guild) ==> n in r && r[n] == t[n]
  {
    t[GuildTableName(guild) := Rows(t, guild) + [Row(EscapeLabel(title), date, creator)]]
  }

  /** `DELETE ... WHERE label = ...`: every row with that label goes, the others stay in order. */
  function WithoutTitle(rows: seq<Row>, title: string): (r: seq<Row>)
    ensures forall x :: x in r <==> x in rows && x.title != title
    ensures |r| <= |rows|
  {
    if rows == [] then []
    else if rows[0].title == title then WithoutTitle(rows[1..], title)
    else [rows[0]] + WithoutTitle(rows[1..], title)
  }

  /** `removeDate`'s effect: the guild's table, if any, loses the escaped label; no table is dropped. */
  function Removed(t: Tables, guild: string, title: string): (r: Tables)
    ensures r.Keys == t.Keys
    ensures !HasTitle(Rows(r, guild), EscapeLabel(title))
    ensures forall n :: n != GuildTableName(guild) && n in t ==> r[n] == t[n]
    ensures forall x :: x in Rows(r, guild) <==> x in Rows(t, guild) && x.title != EscapeLabel(title)
  {
    var name := GuildTableName(guild);
    if name in t then t[name := WithoutTitle(t[name], EscapeLabel(title))] else t
  }

  /** The number of changed rows is non-zero exactly when a row with the label existed. */
  lemma {:induction false} WithoutTitleChanges(rows: seq<Row>, title: string)
    ensures |WithoutTitle(rows, title)| < |rows| <==> HasTitle(rows, title)
  {
    if rows != [] {
      WithoutTitleChanges(rows[1..], title);
      if rows[0].title != title && HasTitle(rows, title) {
        var i :| 0 <= i < |rows| && rows[i].title == title;
        assert rows[1..][i - 1].title == title;
      }
      if HasTitle(rows[1..], title) {
        var i :| 0 <= i < |rows[1..]| && rows[1..][i].title == title;
        assert rows[i + 1].title == title;
      }
    }
  }

  /** Removing a label that no row carries changes nothing. */
  lemma {:induction false} WithoutAbsentTitle(rows: seq<Row>, title: string)
    requires !HasTitle(rows, title)
    ensures WithoutTitle(rows, title) == rows
  {
    if rows != [] {
      assert rows[0].title != title;
      WithoutAbsentTitle(rows[1..], title);
      assert rows == [rows[0]] + rows[1..];
    }
  }

  /** Removal keeps the UNIQUE invariant. */
  lemma {:induction false} WithoutTitleUnique(rows: seq<Row>, title: string)
    requires UniqueTitles(rows)
    ensures UniqueTitles(WithoutTitle(rows, title))
  {
    if rows != [] {
      WithoutTitleUnique(rows[1..], title);
      var rest := WithoutTitle(rows[1..], title);
      if rows[0].title != title {
        forall x | x in rest ensures x.title != rows[0].title {
          var i :| 0 <= i < |rows[1..]| && rows[1..][i] == x;
          assert rows[i + 1] == x;
        }
        var r := [rows[0]] + rest;
        forall i, j | 0 <= i < j < |r| ensures r[i].title != r[j].title {
          if i == 0 { assert r[j] == rest[j - 1] && r[j] in rest; }
          else { assert r[i] == rest[i - 1] && r[j] == rest[j - 1]; }
        }
      }
    }
  }

  /** Deleting from a concatenation deletes from each part. */
  lemma {:induction false} WithoutTitleAppend(a: seq<Row>, b: seq<Row>, title: string)
    ensures WithoutTitle(a + b, title) == WithoutTitle(a, title) + WithoutTitle(b, title)
  {
    if a != [] {
      assert (a + b)[1..] == a[1..] + b;
      WithoutTitleAppend(a[1..], b, title);
    } else {
      assert a + b == b;
    }
  }

  /** Looking up another label is not affected by a deletion. */
  lemma {:induction false} FindRowWithoutOther(rows: seq<Row>, title: string, other: string)
    requires other != title
    ensures FindRow(WithoutTitle(rows, title), other) == FindRow(rows, other)
  {
    if rows != [] {
      FindRowWithoutOther(rows[1..], title, other);
      if rows[0].title != title {
        assert ([rows[0]] + WithoutTitle(rows[1..], title))[1..] == WithoutTitle(rows[1..], title);
      }
    }
  }

  /** A row appended after rows without its label is the one a lookup finds. */
  lemma {:induction false} FindRowAppended(rows: seq<Row>, row: Row)
    requires !HasTitle(rows, row.title)
    ensures FindRow(rows + [row], row.title) == Some(row)
  {
    if rows == [] {
      assert rows + [row] == [row];
    } else {
      assert rows[0].title != row.title;
      assert (rows + [row])[1..] == rows[1..] + [row];
      FindRowAppended(rows[1..], row);
    }
  }

  /** With unique labels, the row a lookup finds is the only row with that label. */
  lemma FindRowUnique(rows: seq<Row>, title: string, x: Row)
    requires UniqueTitles(rows)
    ensures FindRow(rows, title) == Some(x) <==> x in rows && x.title == title
  {
    var r := FindRow(rows, title);
    if x in rows && x.title == title {
      assert HasTitle(rows, title) by {
        var i :| 0 <= i < |rows| && rows[i] == x;
      }
      var i :| 0 <= i < |rows| && rows[i] == r.value;
      var j :| 0 <= j < |rows| && rows[j] == x;
      assert !(i < j) && !(j < i);
    }
  }

  /** An operation on guild `g` that writes only `g`'s table leaves guild `h` as it was. */
  lemma {:induction false} OtherGuildUntouched(t: Tables, t': Tables, g: string, h: string, title: string)
    requires g != h
    requires GuildTableName(g) in t'
    requires t' == t[GuildTableName(g) := t'[GuildTableName(g)]]
    ensures GuildTableName(h) in t' <==> GuildTableName(h) in t
    ensures Rows(t', h) == Rows(t, h)
    ensures Get(t', h, title) == Get(t, h, title)
  {
    GuildTableNameInjective(g, h);
  }

  /** Adding for one guild never reads or changes another guild's table. */
  lemma InsertIsolated(t: Tables, g: string, h: string, title: string, date: string, creator: string, other: string)
    requires g != h
    ensures var t' := Inserted(t, g, title, date, creator);
      (GuildTableName(h) in t' <==> GuildTableName(h) in t) && Rows(t', h) == Rows(t, h) && Get(t', h, other) == Get(t, h, other)
  {
    OtherGuildUntouched(t, Inserted(t, g, title, date, creator), g, h, other);
  }

  /** Removing for one guild never reads or changes another guild's table. */
  lemma RemoveIsolated(t: Tables, g: string, h: string, title: string, other: string)
    requires g != h
    ensures var t' := Removed(t, g, title);
      (GuildTableName(h) in t' <==> GuildTableName(h) in t) && Rows(t', h) == Rows(t, h) && Get(t', h, other) == Get(t, h, other)
  {
    if GuildTableName(g) in t {
      OtherGuildUntouched(t, Removed(t, g, title), g, h, other);
    }
  }

  /** The first add of a guild creates its table holding exactly the one new row. */
  lemma FirstInsert(t: Tables, g: string, title: string, date: string, creator: string)
    requires GuildTableName(g) !in t
    ensures Insertable(t, g, title)
    ensures GuildTableName(g) in Inserted(t, g, title, date, creator)
    ensures Rows(Inserted(t, g, title, date, creator), g) == [Row(EscapeLabel(title), date, creator)]
  {
  }

  /** Without a table, a lookup finds nothing, the listing is empty, and a removal reports and changes nothing. */
  lemma NoTableNoEffect(t: Tables, g: string, title: string)
    requires GuildTableName(g) !in t
    ensures Get(t, g, title) == None && Rows(t, g) == []
    ensures Removed(t, g, title) == t
  {
  }

  /** A successful add keeps every label unique. */
  lemma InsertKeepsValid(t: Tables, g: string, title: string, date: string, creator: string)
    requires ValidTables(t) && Insertable(t, g, title)
    ensures ValidTables(Inserted(t, g, title, date, creator))
  {
    var rows := Rows(t, g);
    var r := rows + [Row(EscapeLabel(title), date, creator)];
    forall i, j | 0 <= i < j < |r| ensures r[i].title != r[j].title {
      if j == |rows| {
        assert r[i] == rows[i];
      } else {
        assert r[i] == rows[i] && r[j] == rows[j];
      }
    }
  }

  /** After a successful add, the lookup of the same label finds the row with the escaped label. */
  lemma InsertThenGet(t: Tables, g: string, title: string, date: string, creator: string)
    requires Insertable(t, g, title)
    ensures Get(Inserted(t, g, title, date, creator), g, title) == Some(Row(EscapeLabel(title), date, creator))
  {
    FindRowAppended(Rows(t, g), Row(EscapeLabel(title), date, creator));
  }

  /** Adding a label whose escaped form is stored fails and the existing row stays the one found. */
  lemma DuplicateRejected(t: Tables, g: string, title: string)
    requires Get(t, g, title).Some?
    ensures !Insertable(t, g, title)
  {
  }

  /** `removeDate` reports a change exactly when `getDate` would have found the label. */
  lemma RemoveReportsPresence(t: Tables, g: string, title: string)
    ensures Get(t, g, title).Some? <==>
      GuildTableName(g) in t && |WithoutTitle(t[GuildTableName(g)], EscapeLabel(title))| < |t[GuildTableName(g)]|
  {
    if GuildTableName(g) in t {
      WithoutTitleChanges(t[GuildTableName(g)], EscapeLabel(title));
    }
  }

  /** After a removal the label is gone, other labels are still found, and the table stays. */
  lemma RemoveThenGet(t: Tables, g: string, title: string, other: string)
    ensures Get(Removed(t, g, title), g, title) == None
    ensures EscapeLabel(other) != EscapeLabel(title) ==> Get(Removed(t, g, title), g, other) == Get(t, g, other)
    ensures GuildTableName(g) in t ==> GuildTableName(g) in Removed(t, g, title)
  {
    var name := GuildTableName(g);
    if name in t {
      if EscapeLabel(other) != EscapeLabel(title) {
        FindRowWithoutOther(t[name], EscapeLabel(title), EscapeLabel(other));
      }
    }
  }

  /** Removal keeps every label unique. */
  lemma RemoveKeepsValid(t: Tables, g: string, title: string)
    requires ValidTables(t)
    ensures ValidTables(Removed(t, g, title))
  {
    if GuildTableName(g) in t {
      WithoutTitleUnique(t[GuildTableName(g)], EscapeLabel(title));
    }
  }

  /** Adding then removing the same label leaves the guild's rows as they were (the table stays). */
  lemma InsertThenRemove(t: Tables, g: string, title: string, date: string, creator: string)
    requires Insertable(t, g, title)
    ensures Rows(Removed(Inserted(t, g, title, date, creator), g, title), g) == Rows(t, g)
    ensures GuildTableName(g) in Removed(Inserted(t, g, title, date, creator), g, title)
  {
    var rows := Rows(t, g);
    var l := EscapeLabel(title);
    WithoutTitleAppend(rows, [Row(l, date, creator)], l);
    WithoutAbsentTitle(rows, l);
    assert WithoutTitle([Row(l, date, creator)], l) == [];
  }

  /** A sequence of `addDate` calls for one guild, each skipped when the UNIQUE constraint rejects it. */
  function InsertAll(t: Tables, g: string, entries: seq<Row>): Tables
    decreases |entries|
  {
    if entries == [] then t
    else
      var e := entries[0];
      var t' := if Insertable(t, g, e.title) then Inserted(t, g, e.title, e.date, e.creator) else t;
      InsertAll(t', g, entries[1..])
  }

  /** Labels whose escaped forms are pairwise distinct and not stored yet. */
  ghost predicate FreshTitles(rows: seq<Row>, entries: seq<Row>)
  {
    && (forall i :: 0 <= i < |entries| ==> !HasTitle(rows, EscapeLabel(entries[i].title)))
    && (forall i, j :: 0 <= i < j < |entries| ==> EscapeLabel(entries[i].title) != EscapeLabel(entries[j].title))
  }

  /** Once the first fresh label is stored, the remaining ones are still fresh. */
  lemma FreshAfterInsert(rows: seq<Row>, row: Row, entries: seq<Row>)
    requires entries != [] && FreshTitles(rows, entries)
    requires row.title == EscapeLabel(entries[0].title)
    ensures FreshTitles(rows + [row], entries[1..])
  {
    forall i | 0 <= i < |entries[1..]|
      ensures !HasTitle(rows + [row], EscapeLabel(entries[1..][i].title))
    {
      var l := EscapeLabel(entries[1..][i].title);
      assert l == EscapeLabel(entries[i + 1].title);
      assert !HasTitle(rows, l);
      assert l != row.title;
    }
    forall i, j | 0 <= i < j < |entries[1..]|
      ensures EscapeLabel(entries[1..][i].title) != EscapeLabel(entries[1..][j].title)
    {
      assert entries[1..][i] == entries[i + 1] && entries[1..][j] == entries[j + 1];
    }
  }

  /** The rows a sequence of successful adds stores: escaped labels, dates and creators, in order. */
  function StoredRows(entries: seq<Row>): (rows: seq<Row>)
    ensures |rows| == |entries|
  {
    if entries == [] then []
    else [Row(EscapeLabel(entries[0].title), entries[0].date, entries[0].creator)] + StoredRows(entries[1..])
  }

  /** The i-th stored row comes from the i-th add: its escaped label, its date and its creator. */
  lemma {:induction false} StoredRowsAt(entries: seq<Row>, i: nat)
    requires i < |entries|
    ensures StoredRows(entries)[i] == Row(EscapeLabel(entries[i].title), entries[i].date, entries[i].creator)
    decreases i
  {
    if i > 0 {
      StoredRowsAt(entries[1..], i - 1);
    }
  }

  /** The rows of one table after a sequence of adds, each skipped when its escaped label is stored. */
  function RowsAfterAdds(rows: seq<Row>, entries: seq<Row>): seq<Row>
    decreases |entries|
  {
    if entries == [] then rows
    else
      var e := entries[0];
      var row := Row(EscapeLabel(e.title), e.date, e.creator);
      RowsAfterAdds(if HasTitle(rows, row.title) then rows else rows + [row], entries[1..])
  }

  /** The adds of one guild only ever change that guild's rows, one add at a time. */
  lemma {:induction false} InsertAllRows(t: Tables, g: string, entries: seq<Row>)
    ensures Rows(InsertAll(t, g, entries), g) == RowsAfterAdds(Rows(t, g), entries)
    decreases |entries|
  {
    if entries != [] {
      var e := entries[0];
      var t' := if Insertable(t, g, e.title) then Inserted(t, g, e.title, e.date, e.creator) else t;
      InsertAllRows(t', g, entries[1..]);
    }
  }

  /** Fresh distinct labels are all added, in order. */
  lemma {:induction false} RowsAfterFreshAdds(rows: seq<Row>, entries: seq<Row>)
    requires FreshTitles(rows, entries)
    ensures RowsAfterAdds(rows, entries) == rows + StoredRows(entries)
    decreases |entries|
  {
    if entries == [] {
      assert rows + [] == rows;
    } else {
      var e := entries[0];
      var row := Row(EscapeLabel(e.title), e.date, e.creator);
      assert !HasTitle(rows, row.title);
      FreshAfterInsert(rows, row, entries);
      RowsAfterFreshAdds(rows + [row], entries[1..]);
      assert StoredRows(entries) == [row] + StoredRows(entries[1..]);
      assert (rows + [row]) + StoredRows(entries[1..]) == rows + StoredRows(entries);
    }
  }

  /** N adds of fresh distinct labels all succeed: `getDates` then lists exactly N more rows, in order. */
  lemma InsertAllAppends(t: Tables, g: string, entries: seq<Row>)
    requires FreshTitles(Rows(t, g), entries)
    ensures Rows(InsertAll(t, g, entries), g) == Rows(t, g) + StoredRows(entries)
    ensures |Rows(InsertAll(t, g, entries), g)| == |Rows(t, g)| + |entries|
  {
    InsertAllRows(t, g, entries);
    RowsAfterFreshAdds(Rows(t, g), entries);
  }

  /** Registering the escape pattern and its replacement collide on the UNIQUE label. */
  lemma EscapeCollision(t: Tables, g: string, date: string, creator: string)
    requires Insertable(t, g, Pattern)
    ensures !Insertable(Inserted(t, g, Pattern, date, creator), g, Replacement)
  {
    EscapeNotInjective();
    var rows := Rows(Inserted(t, g, Pattern, date, creator), g);
    assert rows[|rows| - 1].title == EscapeLabel(Replacement);
  }

  /**
   * `DatabaseTools` over its database handle. Each method performs the SQL
   * statements of `DatabaseTools` in order; the handle's content is `tables`.
   */
  class DateStore {
    var tables: Tables

    ghost predicate Valid()
      reads this
    {
      ValidTables(tables)
    }

    constructor (db: Tables)
      requires ValidTables(db)
      ensures Valid() && tables == db
    {
      tables := db;
    }

    /** `checkGuildTable`: whether `sqlite_master` lists the guild's table. */
    method CheckGuildTable(guild: string) returns (present: bool)
      ensures present <==> GuildTableName(guild) in tables
    {
      present := GuildTableName(guild) in tables;
    }

    /**
     * `addDate`: `CREATE TABLE IF NOT EXISTS`, then `INSERT`. The insert
     * throws when the escaped label is already stored; `inserted` is false
     * then, and the table existed already, so nothing changed.
     */
    method AddDate(guild: string, title: string, date: string, creator: string) returns (inserted: bool)
      requires Valid()
      modifies this
      ensures Valid()
      ensures GuildTableName(guild) in tables
      ensures inserted <==> Insertable(old(tables), guild, title)
      ensures tables == if inserted then Inserted(old(tables), guild, title, date, creator) else old(tables)
    {
      var name := GuildTableName(guild);
      if name !in tables {
        tables := tables[name := []];
      }
      var row := Row(EscapeLabel(title), date, creator);
      if HasTitle(tables[name], row.title) {
        inserted := false;
      } else {
        InsertKeepsValid(old(tables), guild, title, date, creator);
        tables := tables[name := tables[name] + [row]];
        inserted := true;
      }
    }

    /** `getDate`: the row with the escaped label, or nothing when the table or the row is absent. */
    method GetDate(guild: string, title: string) returns (entry: Option<Row>)
      requires Valid()
      ensures entry.Some? <==> GuildTableName(guild) in tables && HasTitle(tables[GuildTableName(guild)], EscapeLabel(title))
      ensures entry.Some? ==> entry.value.title == EscapeLabel(title) && entry.value in Rows(tables, guild)
      ensures entry.Some? ==> forall x :: x in Rows(tables, guild) && x.title == EscapeLabel(title) ==> x == entry.value
      ensures entry == Get(tables, guild, title)
    {
      var present := CheckGuildTable(guild);
      if present {
        entry := FindRow(tables[GuildTableName(guild)], EscapeLabel(title));
        forall x | x in Rows(tables, guild) && x.title == EscapeLabel(title)
          ensures entry.Some? ==> x == entry.value
        {
          FindRowUnique(tables[GuildTableName(guild)], EscapeLabel(title), x);
        }
      } else {
        entry := None;
      }
    }

    /** `getDates`: every row of the guild in storage order; none when the table is absent. */
    method GetDates(guild: string) returns (rows: seq<Row>)
      ensures GuildTableName(guild) !in tables ==> rows == []
      ensures GuildTableName(guild) in tables ==> rows == tables[GuildTableName(guild)]
    {
      var present := CheckGuildTable(guild);
      rows := if present then tables[GuildTableName(guild)] else [];
    }

    /** `removeDate`: `DELETE` the escaped label; the result says whether a row changed. */
    method RemoveDate(guild: string, title: string) returns (changed: bool)
      requires Valid()
      modifies this
      ensures Valid()
      ensures changed <==> old(Get(tables, guild, title)).Some?
      ensures tables == Removed(old(tables), guild, title)
    {
      var present := CheckGuildTable(guild);
      RemoveReportsPresence(tables, guild, title);
      RemoveKeepsValid(tables, guild, title);
      if present {
        var name := GuildTableName(guild);
        var before := tables[name];
        var after := WithoutTitle(before, EscapeLabel(title));
        tables := tables[name := after];
        changed := |after| != |before|;
      } else {
        changed := false;
      }
    }
  }
}
