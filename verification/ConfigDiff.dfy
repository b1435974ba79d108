/** `diff_config`: the rows that tell the configuration in the database from the local one, and the write loop
    of `set_config`. */
module ConfigDiff {
  import opened Wrappers
  import opened PyStrings
  import opened ConfigFlatten
  import opened ConfigUnflatten

  type Texts = map<Option<string>, string>

  /** `get_value_as_string('key', entry)` */
  function KeyText(e: Entry): Option<string> {
    if IsBlank(e.key) then None else Some(Strip(e.key))
  }

  /** `get_value_as_string('value', entry, '-')`, with `str` as Python's rendering of what is not a string. */
  function ValueText(str: Value -> string, e: Entry): string {
    if !Exists(e.value) then "-" else match e.value case Text(s) => Strip(s) case v => str(v)
  }

  /** How an entry reads: without the blanks around its key, and with a dash for what is empty; a text without the blanks
      around it, and any other value as Python renders it. */
  lemma EntryReads(str: Value -> string, e: Entry)
    ensures KeyText(e) == if forall c | c in e.key :: IsSpace(c) then None else Some(Strip(e.key))
    ensures IsEmpty(e.value) ==> ValueText(str, e) == "-"
    ensures e.value.Text? && !IsEmpty(e.value) ==> ValueText(str, e) == Strip(e.value.s)
    ensures !e.value.Text? && !IsEmpty(e.value) ==> ValueText(str, e) == str(e.value)
  {
    BlankMeansAllSpace(e.key);
    AnyValueIs(e.value);
  }

  /** The dict built from a list of entries: the last entry of a key wins. */
  function AsTexts(str: Value -> string, entries: seq<Entry>): Texts {
    if entries == [] then map[]
    else
      var last := entries[|entries| - 1];
      AsTexts(str, entries[..|entries| - 1])[KeyText(last) := ValueText(str, last)]
  }

  /** The last entry that reads as its key does. */
  predicate LastReading(entries: seq<Entry>, i: nat) {
    i < |entries| && forall k | i < k < |entries| :: KeyText(entries[k]) != KeyText(entries[i])
  }

  /** The keys are those of the entries, and the last entry of a key decides its value. */
  lemma AsTextsOf(str: Value -> string, entries: seq<Entry>)
    ensures forall key :: key in AsTexts(str, entries) <==> exists i :: 0 <= i < |entries| && KeyText(entries[i]) == key
    ensures forall i: nat | LastReading(entries, i) ::
              KeyText(entries[i]) in AsTexts(str, entries)
              && AsTexts(str, entries)[KeyText(entries[i])] == ValueText(str, entries[i])
  {
    hide AsTexts, KeyText, ValueText;
    forall key ensures key in AsTexts(str, entries) <==> exists i :: 0 <= i < |entries| && KeyText(entries[i]) == key {
      AsTextsHas(str, entries, key);
    }
    forall i: nat | LastReading(entries, i)
      ensures KeyText(entries[i]) in AsTexts(str, entries)
              && AsTexts(str, entries)[KeyText(entries[i])] == ValueText(str, entries[i])
    {
      AsTextsLast(str, entries, i);
    }
  }

  lemma {:induction false} AsTextsHas(str: Value -> string, entries: seq<Entry>, key: Option<string>)
    ensures key in AsTexts(str, entries) <==> exists i :: 0 <= i < |entries| && KeyText(entries[i]) == key
  {
    if entries != [] {
      AsTextsHas(str, entries[..|entries| - 1], key);
    }
  }

  lemma {:induction false} AsTextsLast(str: Value -> string, entries: seq<Entry>, i: nat)
    requires LastReading(entries, i)
    ensures KeyText(entries[i]) in AsTexts(str, entries)
    ensures AsTexts(str, entries)[KeyText(entries[i])] == ValueText(str, entries[i])
  {
    hide KeyText, ValueText;
    var n := |entries| - 1;
    if i < n {
      assert KeyText(entries[n]) != KeyText(entries[i]);
      AsTextsLast(str, entries[..n], i);
    }
  }

  method BuildTexts(str: Value -> string, entries: seq<Entry>) returns (texts: Texts)
    ensures texts == AsTexts(str, entries)
    ensures forall key :: key in texts <==> exists i :: 0 <= i < |entries| && KeyText(entries[i]) == key
    ensures forall i: nat | LastReading(entries, i) ::
              KeyText(entries[i]) in texts && texts[KeyText(entries[i])] == ValueText(str, entries[i])
  {
    AsTextsOf(str, entries);
    texts := map[];
    for i := 0 to |entries|
      invariant texts == AsTexts(str, entries[..i])
    {
      assert entries[..i + 1][..i] == entries[..i];
      texts := texts[KeyText(entries[i]) := ValueText(str, entries[i])];
    }
    assert entries[..|entries|] == entries;
  }

  // ---------------------------------------------------------------- rows

  datatype Status = ADDED | MODIFIED | DELETED

  datatype Row = Row(key: Option<string>, oldValue: string, newValue: string, status: Status)

  const NOT_AVAILABLE := "n/a"

  /** The two maps disagree on the key. */
  predicate Differ(db: Texts, local: Texts, key: Option<string>) {
    (key in db) != (key in local) || (key in db && db[key] != local[key])
  }

  /** What a row must say about its key. */
  predicate Describes(row: Row, db: Texts, local: Texts) {
    && Differ(db, local, row.key)
    && match row.status
       case ADDED => row.key !in db && row.oldValue == "n/a" && row.newValue == local[row.key]
       case MODIFIED => row.key in db && row.key in local && row.oldValue == db[row.key] && row.newValue == local[row.key]
       case DELETED => row.key !in local && row.oldValue == db[row.key] && row.newValue == "n/a"
  }

  predicate HasRow(rows: seq<Row>, key: Option<string>) {
    exists i | 0 <= i < |rows| :: rows[i].key == key
  }

  /** Every row describes a difference, no key has two, and the keys that have one are `covered`. */
  ghost predicate RowsFor(rows: seq<Row>, db: Texts, local: Texts, covered: set<Option<string>>) {
    && (forall i | 0 <= i < |rows| :: Describes(rows[i], db, local))
    && (forall i, j | 0 <= i < j < |rows| :: rows[i].key != rows[j].key)
    && (forall key :: HasRow(rows, key) <==> key in covered)
  }

  ghost predicate IsDiff(rows: seq<Row>, db: Texts, local: Texts) {
    && (forall i | 0 <= i < |rows| :: Describes(rows[i], db, local))
    && (forall i, j | 0 <= i < j < |rows| :: rows[i].key != rows[j].key)
    && (forall key :: HasRow(rows, key) <==> Differ(db, local, key))
  }

  lemma AddRow(rows: seq<Row>, row: Row, db: Texts, local: Texts, covered: set<Option<string>>)
    requires RowsFor(rows, db, local, covered) && Describes(row, db, local) && row.key !in covered
    ensures RowsFor(rows + [row], db, local, covered + {row.key})
  {
    var more := rows + [row];
    forall key ensures HasRow(more, key) <==> key in covered + {row.key} {
      if key == row.key {
        assert more[|rows|].key == key;
      } else if HasRow(rows, key) {
        var i :| 0 <= i < |rows| && rows[i].key == key;
        assert more[i].key == key;
      }
    }
    forall i | 0 <= i < |rows| ensures rows[i].key != row.key {
      assert HasRow(rows, rows[i].key);
    }
  }

  /** The rows, in the arbitrary order in which Python walks the two set differences. */
  method DiffRows(db: Texts, local: Texts) returns (rows: seq<Row>)
    ensures IsDiff(rows, db, local)
  {
    var setX := db.Items - local.Items;
    var setY := local.Items - db.Items;
    rows := [];
    ghost var covered: set<Option<string>> := {};
    var todo := setX;
    while todo != {}
      invariant todo <= setX
      invariant RowsFor(rows, db, local, covered)
      invariant forall key :: key in covered <==> key in db && Differ(db, local, key) && (key, db[key]) !in todo
    {
      var item :| item in todo;
      assert item in db.Items && item !in local.Items;
      var row := if item.0 in local then Row(item.0, item.1, local[item.0], MODIFIED)
                 else Row(item.0, item.1, NOT_AVAILABLE, DELETED);
      AddRow(rows, row, db, local, covered);
      rows, covered, todo := rows + [row], covered + {item.0}, todo - {item};
    }
    todo := setY;
    while todo != {}
      invariant todo <= setY
      invariant RowsFor(rows, db, local, covered)
      invariant forall key :: key in covered <==>
                  Differ(db, local, key) && (key in db || (key in local && (key, local[key]) !in todo))
    {
      var item :| item in todo;
      assert item in local.Items && item !in db.Items;
      if item.0 !in db {
        var row := Row(item.0, NOT_AVAILABLE, item.1, ADDED);
        AddRow(rows, row, db, local, covered);
        rows, covered := rows + [row], covered + {item.0};
      }
      todo := todo - {item};
    }
  }

  // ---------------------------------------------------------------- a diff is a patch

  function ApplyRows(db: Texts, rows: seq<Row>): Texts {
    if rows == [] then db
    else
      var row, rest := rows[|rows| - 1], ApplyRows(db, rows[..|rows| - 1]);
      if row.status.DELETED? then rest - {row.key} else rest[row.key := row.newValue]
  }

  lemma {:induction false} ApplyRowsAt(db: Texts, rows: seq<Row>, key: Option<string>)
    requires forall i, j | 0 <= i < j < |rows| :: rows[i].key != rows[j].key
    ensures !HasRow(rows, key) ==> (key in ApplyRows(db, rows) <==> key in db)
    ensures !HasRow(rows, key) && key in db ==> ApplyRows(db, rows)[key] == db[key]
    ensures forall i | 0 <= i < |rows| && rows[i].key == key ::
              if rows[i].status.DELETED? then key !in ApplyRows(db, rows)
              else key in ApplyRows(db, rows) && ApplyRows(db, rows)[key] == rows[i].newValue
  {
    if rows != [] {
      var before := rows[..|rows| - 1];
      ApplyRowsAt(db, before, key);
      assert forall i | 0 <= i < |before| :: before[i] == rows[i];
      assert HasRow(before, key) ==> HasRow(rows, key);
    }
  }

  /** Applying the rows to the database map gives the local map. */
  lemma DiffIsPatch(rows: seq<Row>, db: Texts, local: Texts)
    requires IsDiff(rows, db, local)
    ensures ApplyRows(db, rows) == local
  {
    forall key
      ensures key in ApplyRows(db, rows) <==> key in local
      ensures key in local ==> key in ApplyRows(db, rows) && ApplyRows(db, rows)[key] == local[key]
    {
      ApplyRowsAt(db, rows, key);
      if HasRow(rows, key) {
        var i :| 0 <= i < |rows| && rows[i].key == key;
        assert Describes(rows[i], db, local);
      } else {
        assert !Differ(db, local, key);
      }
    }
  }

  /** Rows determine nothing more: two diffs of the same maps have the same rows, up to order. */
  lemma DiffIsUnique(rows: seq<Row>, other: seq<Row>, db: Texts, local: Texts, i: nat)
    requires IsDiff(rows, db, local) && IsDiff(other, db, local) && i < |rows|
    ensures rows[i] in other
  {
    assert HasRow(rows, rows[i].key);
    var j :| 0 <= j < |other| && other[j].key == rows[i].key;
    assert Describes(other[j], db, local) && Describes(rows[i], db, local);
  }

  // ---------------------------------------------------------------- after writing the local entries

  class ConfigDb {
    var entries: seq<Entry>

    constructor (entries: seq<Entry>)
      ensures this.entries == entries
    {
      this.entries := entries;
    }

    /** `set_config_entry` */
    method SetConfigEntry(e: Entry)
      modifies this
      ensures entries == Written(old(entries), e)
    {
      var i := 0;
      while i < |entries| && entries[i].key != e.key
        invariant i <= |entries| && forall j | 0 <= j < i :: entries[j].key != e.key
      {
        i := i + 1;
      }
      ghost var at := WrittenAt(entries, e);
      assert at == i;
      hide Written;
      entries := entries[..i] + [e] + if i < |entries| then entries[i + 1..] else [];
    }

    /** `for config_entry in config_entries: db.set_config_entry(...)` */
    method SetConfigEntries(configEntries: seq<Entry>)
      modifies this
      ensures entries == WrittenAll(old(entries), configEntries)
    {
      for i := 0 to |configEntries|
        invariant entries == WrittenAll(old(entries), configEntries[..i])
      {
        assert configEntries[..i + 1][..i] == configEntries[..i];
        SetConfigEntry(configEntries[i]);
      }
      assert configEntries[..|configEntries|] == configEntries;
    }
  }

  /** The table with one item replaced, or added. */
  function Written(entries: seq<Entry>, e: Entry): seq<Entry> {
    if entries == [] then [e]
    else if entries[0].key == e.key then [e] + entries[1..]
    else [entries[0]] + Written(entries[1..], e)
  }

  function WrittenAll(entries: seq<Entry>, more: seq<Entry>): seq<Entry> {
    if more == [] then entries
    else Written(WrittenAll(entries, more[..|more| - 1]), more[|more| - 1])
  }

  /** The entry written last under a key, if any. */
  function LastOf(entries: seq<Entry>, key: string): Option<Entry> {
    if entries == [] then None
    else if entries[|entries| - 1].key == key then Some(entries[|entries| - 1])
    else LastOf(entries[..|entries| - 1], key)
  }

  /** A table: one item a key. */
  predicate IsTable(entries: seq<Entry>) {
    forall i, j | 0 <= i < j < |entries| :: entries[i].key != entries[j].key
  }

  /** Keys that read the same, once blanks around them are stripped, are the same. */
  predicate ReadsApart(entries: seq<Entry>) {
    forall i, j | 0 <= i < |entries| && 0 <= j < |entries| :: KeyText(entries[i]) == KeyText(entries[j]) ==> entries[i].key == entries[j].key
  }

  /** Where the item is written: in the place of the one with its key, or at the end. */
  lemma {:induction false} WrittenAt(entries: seq<Entry>, e: Entry) returns (i: nat)
    ensures i <= |entries| && forall j | 0 <= j < i :: entries[j].key != e.key
    ensures i < |entries| ==> entries[i].key == e.key
    ensures Written(entries, e) == if i < |entries| then entries[i := e] else entries + [e]
  {
    if entries == [] || entries[0].key == e.key {
      i := 0;
    } else {
      i := WrittenAt(entries[1..], e);
      i := i + 1;
    }
  }

  /** The table after the writes: the old items in their places, the new ones after them, each as last written. */
  ghost predicate Holds(w: seq<Entry>, entries: seq<Entry>, more: seq<Entry>) {
    && IsTable(w) && |entries| <= |w|
    && (forall i | 0 <= i < |entries| :: w[i].key == entries[i].key)
    && (forall i | 0 <= i < |w| :: LastOf(more, w[i].key) == Some(w[i]) || (i < |entries| && LastOf(more, w[i].key).None? && w[i] == entries[i]))
    && (forall key | LastOf(more, key).Some? :: exists i :: 0 <= i < |w| && w[i].key == key)
  }

  lemma {:induction false} WrittenAllHolds(entries: seq<Entry>, more: seq<Entry>)
    requires IsTable(entries)
    ensures Holds(WrittenAll(entries, more), entries, more)
  {
    if more != [] {
      var before, last := more[..|more| - 1], more[|more| - 1];
      WrittenAllHolds(entries, before);
      WrittenHolds(WrittenAll(entries, before), entries, before, last);
      assert before + [last] == more;
    }
  }

  lemma LastOfSnoc(entries: seq<Entry>, e: Entry, key: string)
    ensures LastOf(entries + [e], key) == if key == e.key then Some(e) else LastOf(entries, key)
  {
    assert (entries + [e])[..|entries|] == entries;
  }

  lemma WrittenHolds(w: seq<Entry>, entries: seq<Entry>, more: seq<Entry>, e: Entry)
    requires Holds(w, entries, more)
    ensures Holds(Written(w, e), entries, more + [e])
  {
    hide Written;
    var i := WrittenAt(w, e);
    var w' := Written(w, e);
    forall key ensures LastOf(more + [e], key) == if key == e.key then Some(e) else LastOf(more, key) {
      LastOfSnoc(more, e, key);
    }
    assert w'[i].key == e.key;
    forall key | LastOf(more + [e], key).Some? ensures exists j :: 0 <= j < |w'| && w'[j].key == key {
      if key != e.key {
        var j :| 0 <= j < |w| && w[j].key == key;
        assert w'[j].key == key;
      }
    }
  }

  lemma {:induction false} LastOfIsIn(entries: seq<Entry>, key: string)
    ensures LastOf(entries, key).Some? <==> exists i :: 0 <= i < |entries| && entries[i].key == key
    ensures LastOf(entries, key).Some? ==> LastOf(entries, key).value.key == key
  {
    if entries != [] {
      LastOfIsIn(entries[..|entries| - 1], key);
    }
  }

  lemma {:induction false} LastOfReads(entries: seq<Entry>, key: string) returns (i: nat)
    requires ReadsApart(entries) && LastOf(entries, key).Some?
    ensures LastReading(entries, i) && entries[i] == LastOf(entries, key).value
  {
    hide KeyText;
    var n := |entries| - 1;
    if entries[n].key == key {
      i := n;
    } else {
      i := LastOfReads(entries[..n], key);
      LastOfIsIn(entries[..n], key);
      assert KeyText(entries[n]) != KeyText(entries[i]);
    }
  }

  /** The local value of a key is the one written last. */
  lemma LocalText(str: Value -> string, local: seq<Entry>, key: string)
    requires ReadsApart(local) && LastOf(local, key).Some?
    ensures var e := LastOf(local, key).value;
            e.key == key && KeyText(e) in AsTexts(str, local) && AsTexts(str, local)[KeyText(e)] == ValueText(str, e)
  {
    LastOfIsIn(local, key);
    var i := LastOfReads(local, key);
    AsTextsLast(str, local, i);
  }

  /** Two stored keys read the same; the first is written, and the second, which decides what the diff shows, keeps
      another value. */
  predicate Clash(str: Value -> string, entries: seq<Entry>, local: seq<Entry>, i: nat, j: nat) {
    && i < j && LastReading(entries, j) && KeyText(entries[i]) == KeyText(entries[j])
    && LastOf(local, entries[i].key).Some?
    && ValueText(str, entries[j]) != ValueText(str, LastOf(local, entries[i].key).value)
  }

  lemma WrittenReadings(str: Value -> string, entries: seq<Entry>, local: seq<Entry>)
    requires IsTable(entries)
    ensures forall key :: key in AsTexts(str, WrittenAll(entries, local)) <==> key in AsTexts(str, entries) || key in AsTexts(str, local)
  {
    hide KeyText, ValueText, AsTexts, WrittenAll;
    var w := WrittenAll(entries, local);
    WrittenAllHolds(entries, local);
    AsTextsOf(str, w);
    AsTextsOf(str, entries);
    AsTextsOf(str, local);
    forall key ensures key in AsTexts(str, w) <==> key in AsTexts(str, entries) || key in AsTexts(str, local) {
      WrittenKeys(w, entries, local, key);
    }
  }

  lemma WrittenKeys(w: seq<Entry>, entries: seq<Entry>, local: seq<Entry>, key: Option<string>)
    requires Holds(w, entries, local)
    ensures (exists i :: 0 <= i < |w| && KeyText(w[i]) == key)
       <==> (exists i :: 0 <= i < |entries| && KeyText(entries[i]) == key) || (exists i :: 0 <= i < |local| && KeyText(local[i]) == key)
  {
    if i :| 0 <= i < |w| && KeyText(w[i]) == key {
      LastOfIsIn(local, w[i].key);
      if LastOf(local, w[i].key).Some? {
        var n :| 0 <= n < |local| && local[n].key == w[i].key;
        assert KeyText(local[n]) == key;
      } else {
        assert KeyText(entries[i]) == key;
      }
    }
    if i :| 0 <= i < |entries| && KeyText(entries[i]) == key {
      assert KeyText(w[i]) == key;
    }
    if n :| 0 <= n < |local| && KeyText(local[n]) == key {
      LastOfIsIn(local, local[n].key);
      var i :| 0 <= i < |w| && w[i].key == local[n].key;
      assert KeyText(w[i]) == key;
    }
  }

  /** A key still differs after the writes if and only if it clashes. */
  lemma ClashDiffers(str: Value -> string, entries: seq<Entry>, local: seq<Entry>, i: nat, j: nat)
    requires IsTable(entries) && ReadsApart(local) && Clash(str, entries, local, i, j)
    ensures var key := KeyText(entries[j]);
            key in AsTexts(str, local) && Differ(AsTexts(str, WrittenAll(entries, local)), AsTexts(str, local), key)
  {
    hide KeyText, ValueText, AsTexts, WrittenAll;
    var w := WrittenAll(entries, local);
    WrittenAllHolds(entries, local);
    OnlyOneKeyWritten(w, entries, local, i, j);
    LocalText(str, local, entries[i].key);
    SameText(entries[i], LastOf(local, entries[i].key).value);
    AsTextsLast(str, w, j);
  }

  lemma OnlyOneKeyWritten(w: seq<Entry>, entries: seq<Entry>, local: seq<Entry>, i: nat, j: nat)
    requires Holds(w, entries, local) && ReadsApart(local)
    requires i < j && LastReading(entries, j) && KeyText(entries[i]) == KeyText(entries[j])
    requires LastOf(local, entries[i].key).Some?
    ensures LastReading(w, j) && w[j] == entries[j]
  {
    SameText(w[i], entries[i]);
    SameText(w[j], entries[j]);
    forall k | j <= k < |w| && KeyText(w[k]) == KeyText(entries[j]) ensures LastOf(local, w[k].key).None? {
      if LastOf(local, w[k].key).Some? {
        ReadTheSame(local, w[k], w[i]);
      }
    }
    assert forall k | j < k < |w| :: KeyText(w[k]) != KeyText(w[j]);
  }

  /** Two written keys that read the same are the same. */
  lemma ReadTheSame(local: seq<Entry>, a: Entry, b: Entry)
    requires ReadsApart(local) && KeyText(a) == KeyText(b)
    requires LastOf(local, a.key).Some? && LastOf(local, b.key).Some?
    ensures a.key == b.key
  {
    LastOfIsIn(local, a.key);
    LastOfIsIn(local, b.key);
    SameText(a, LastOf(local, a.key).value);
    SameText(b, LastOf(local, b.key).value);
  }

  /** A key whose last reading was written shows the local value. */
  lemma LastWrittenAgrees(str: Value -> string, w: seq<Entry>, local: seq<Entry>, j: nat)
    requires LastReading(w, j) && ReadsApart(local) && LastOf(local, w[j].key) == Some(w[j])
    ensures var key := KeyText(w[j]);
            key in AsTexts(str, w) && key in AsTexts(str, local) && AsTexts(str, w)[key] == AsTexts(str, local)[key]
  {
    hide KeyText, ValueText, AsTexts;
    AsTextsOf(str, w);
    LocalText(str, local, w[j].key);
  }

  lemma DifferenceClashes(str: Value -> string, entries: seq<Entry>, local: seq<Entry>, key: Option<string>) returns (i: nat, j: nat)
    requires IsTable(entries) && ReadsApart(local) && key in AsTexts(str, local)
    requires Differ(AsTexts(str, WrittenAll(entries, local)), AsTexts(str, local), key)
    ensures Clash(str, entries, local, i, j) && KeyText(entries[j]) == key
  {
    hide KeyText, ValueText, AsTexts, WrittenAll;
    var w := WrittenAll(entries, local);
    WrittenAllHolds(entries, local);
    WrittenReadings(str, entries, local);
    AsTextsOf(str, local);
    var n :| 0 <= n < |local| && KeyText(local[n]) == key;
    LastOfIsIn(local, local[n].key);
    i :| 0 <= i < |w| && w[i].key == local[n].key;
    SameText(w[i], local[n]);
    j := LastIndex(w, i);
    if LastOf(local, w[j].key).Some? {
      LastWrittenAgrees(str, w, local, j);
    }
    UnwrittenClashes(str, w, entries, local, i, j);
  }

  lemma UnwrittenClashes(str: Value -> string, w: seq<Entry>, entries: seq<Entry>, local: seq<Entry>, i: nat, j: nat)
    requires Holds(w, entries, local) && ReadsApart(local)
    requires i <= j && LastReading(w, j) && KeyText(w[j]) == KeyText(w[i])
    requires LastOf(local, w[i].key).Some? && LastOf(local, w[j].key).None?
    requires KeyText(w[j]) in AsTexts(str, local) && Differ(AsTexts(str, w), AsTexts(str, local), KeyText(w[j]))
    ensures Clash(str, entries, local, i, j) && KeyText(entries[j]) == KeyText(w[j])
  {
    hide KeyText, ValueText, AsTexts;
    AsTextsOf(str, w);
    LocalText(str, local, w[i].key);
    SameText(w[i], entries[i]);
    SameText(w[i], LastOf(local, w[i].key).value);
    forall k | j < k < |entries| ensures KeyText(entries[k]) != KeyText(entries[j]) {
      SameText(w[k], entries[k]);
    }
  }

  lemma SameText(a: Entry, b: Entry)
    requires a.key == b.key
    ensures KeyText(a) == KeyText(b)
  {
  }

  /** The last entry that reads as entry `i` does. */
  lemma LastIndex(entries: seq<Entry>, i: nat) returns (j: nat)
    requires i < |entries|
    ensures i <= j && LastReading(entries, j) && KeyText(entries[j]) == KeyText(entries[i])
    decreases |entries| - i
  {
    j := i;
    if k :| i < k < |entries| && KeyText(entries[k]) == KeyText(entries[i]) {
      j := LastIndex(entries, k);
    }
  }

  /** Once every local entry is written to the database, a new diff has a DELETED row for each key that only the
      database had, a MODIFIED row for each key that clashes, and no other row. */
  lemma RowsAfterWriting(str: Value -> string, entries: seq<Entry>, local: seq<Entry>, rows: seq<Row>, key: Option<string>)
    requires IsTable(entries) && ReadsApart(local)
    requires IsDiff(rows, AsTexts(str, WrittenAll(entries, local)), AsTexts(str, local))
    ensures forall k | 0 <= k < |rows| :: !rows[k].status.ADDED?
    ensures (exists k :: 0 <= k < |rows| && rows[k].key == key && rows[k].status == DELETED)
       <==> key in AsTexts(str, entries) && key !in AsTexts(str, local)
    ensures (exists k :: 0 <= k < |rows| && rows[k].key == key && rows[k].status == MODIFIED)
       <==> exists i: nat, j: nat :: Clash(str, entries, local, i, j) && KeyText(entries[j]) == key
  {
    hide KeyText, ValueText, AsTexts, WrittenAll;
    var db, wanted := AsTexts(str, WrittenAll(entries, local)), AsTexts(str, local);
    WrittenReadings(str, entries, local);
    assert HasRow(rows, key) <==> Differ(db, wanted, key);
    if k :| 0 <= k < |rows| && rows[k].key == key && rows[k].status == MODIFIED {
      assert Describes(rows[k], db, wanted);
      var i, j := DifferenceClashes(str, entries, local, key);
    }
    if i: nat, j: nat :| Clash(str, entries, local, i, j) && KeyText(entries[j]) == key {
      ClashDiffers(str, entries, local, i, j);
      var k :| 0 <= k < |rows| && rows[k].key == key;
      assert Describes(rows[k], db, wanted);
    }
  }

  /** So only DELETED rows remain if and only if no key clashes. */
  lemma AfterWritingOnlyDeletions(str: Value -> string, entries: seq<Entry>, local: seq<Entry>, rows: seq<Row>)
    requires IsTable(entries) && ReadsApart(local)
    requires IsDiff(rows, AsTexts(str, WrittenAll(entries, local)), AsTexts(str, local))
    ensures (forall k | 0 <= k < |rows| :: rows[k].status == DELETED)
       <==> !exists i: nat, j: nat :: Clash(str, entries, local, i, j)
  {
    hide Clash, AsTexts, WrittenAll, KeyText;
    forall k | 0 <= k < |rows| ensures rows[k].status == DELETED || exists i: nat, j: nat :: Clash(str, entries, local, i, j) {
      RowsAfterWriting(str, entries, local, rows, rows[k].key);
    }
    if i: nat, j: nat :| Clash(str, entries, local, i, j) {
      ClashBounds(str, entries, local, i, j);
      RowsAfterWriting(str, entries, local, rows, KeyText(entries[j]));
    }
  }

  lemma ClashBounds(str: Value -> string, entries: seq<Entry>, local: seq<Entry>, i: nat, j: nat)
    requires Clash(str, entries, local, i, j)
    ensures i < j < |entries|
  {
  }

  /** Two stored keys that read the same: the local value is written, and the diff still shows the other one. */
  lemma KeysThatReadTheSame(str: Value -> string)
    ensures var entries, local := [Entry("a", Text("1")), Entry(" a", Text("1"))], [Entry("a", Text("2"))];
            IsTable(entries) && ReadsApart(local) && Clash(str, entries, local, 0, 1)
  {
    assert Strip("a") == "a" && Strip(" a") == "a" && Strip("1") == "1" && Strip("2") == "2";
  }
}
