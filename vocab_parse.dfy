/** `parse_pdf` in app.py: turns the tables that the PDF library extracts into
    the word/meaning list the game is played with. Opening the PDF and
    extracting its tables is not part of this model: the tables, page after
    page, are the input. */
module VocabParse {
  import opened Wrappers
  import opened PyStr

  /** One word/meaning pair: a `{"word": ..., "meaning": ...}` record. */
  datatype VocabEntry = VocabEntry(word: string, meaning: string)

  /** A table cell is a string or `None` (an empty cell of the PDF table). */
  type Cell = Option<string>
  type Row = seq<Cell>
  type Table = seq<Row>

  const HEADER_NUMBER: string := "No."
  const HEADER_WORD: string := "Word"

  /** Python truthiness of a cell: neither `None` nor the empty string. */
  predicate Truthy(c: Cell) {
    c.Some? && c.value != []
  }

  /** What every emitted entry looks like: a non-empty word and meaning,
      neither with surrounding whitespace, and a meaning on one line. */
  predicate ValidEntry(e: VocabEntry) {
    && e.word != [] && Stripped(e.word)
    && e.meaning != [] && Stripped(e.meaning)
    && '\n' !in e.meaning
  }

  /** The rows the header test of the row loop skips: empty rows, rows whose
      first cell is "No." and rows of two or more cells whose second cell is
      "Word". */
  predicate IsSkipped(row: Row) {
    || |row| == 0
    || row[0] == Some(HEADER_NUMBER)
    || (|row| >= 2 && row[1] == Some(HEADER_WORD))
  }

  /** The rows on which the header test itself raises `IndexError`: a row of
      one cell whose cell is not "No." makes `row[1]` fail. */
  predicate Raises(row: Row)
    ensures Raises(row) ==> !IsSkipped(row)
  {
    |row| == 1 && row[0] != Some(HEADER_NUMBER)
  }

  /** The entry the columns `w` (word) and `m` (meaning) of a row yield, if
      the row is long enough, both cells are truthy and both stay non-empty
      once cleaned. */
  function PairAt(row: Row, w: nat, m: nat): (r: seq<VocabEntry>)
    requires w < m
    ensures |r| <= 1
    ensures r != [] ==> m < |row| && Truthy(row[w]) && Truthy(row[m])
    ensures r != [] ==> ValidEntry(r[0])
    ensures r != [] ==> r[0].word == Strip(row[w].value)
    ensures r != [] ==> r[0].meaning == ReplaceNewlines(Strip(row[m].value))
    ensures (m < |row| && Truthy(row[w]) && Truthy(row[m])
             && !AllSpace(row[w].value) && !AllSpace(row[m].value)) ==> r != []
  {
    if m < |row| && Truthy(row[w]) && Truthy(row[m]) then
      var word := Strip(row[w].value);
      var meaning := ReplaceNewlines(Strip(row[m].value));
      ReplaceKeepsStripped(Strip(row[m].value));
      if word != [] && meaning != [] then [VocabEntry(word, meaning)] else []
    else []
  }

  /** What one row contributes: `None` when the row raises, otherwise the
      pair from columns 1/2 followed by the pair from columns 4/5. */
  function RowEntries(row: Row): (r: Option<seq<VocabEntry>>)
    ensures r.None? <==> Raises(row)
    ensures IsSkipped(row) ==> r == Some([])
    ensures r.Some? ==> |r.value| <= 2
    ensures r.Some? && |row| < 3 ==> r.value == []
    ensures r.Some? && |row| < 6 ==> |r.value| <= 1
    ensures r.Some? ==> forall i :: 0 <= i < |r.value| ==> ValidEntry(r.value[i])
    ensures r.Some? && |r.value| == 2 ==>
      && |row| >= 6 && Truthy(row[1]) && Truthy(row[4])
      && r.value[0].word == Strip(row[1].value)
      && r.value[1].word == Strip(row[4].value)
    ensures !Raises(row) && !IsSkipped(row) ==> r == Some(PairAt(row, 1, 2) + PairAt(row, 4, 5))
  {
    if |row| == 0 || row[0] == Some(HEADER_NUMBER) then Some([])
    else if |row| < 2 then None
    else if row[1] == Some(HEADER_WORD) then Some([])
    else
      var left, right := PairAt(row, 1, 2), PairAt(row, 4, 5);
      PairsValid(left, right);
      Some(left + right)
  }

  lemma PairsValid(left: seq<VocabEntry>, right: seq<VocabEntry>)
    requires |left| <= 1 && |right| <= 1
    requires left != [] ==> ValidEntry(left[0])
    requires right != [] ==> ValidEntry(right[0])
    ensures forall i :: 0 <= i < |left + right| ==> ValidEntry((left + right)[i])
    ensures |left + right| == 2 ==> (left + right)[0] == left[0] && (left + right)[1] == right[0]
  {
  }

  /** Sequencing of two steps that may raise: the first error wins. */
  function Then(a: Option<seq<VocabEntry>>, b: Option<seq<VocabEntry>>): Option<seq<VocabEntry>> {
    if a.Some? && b.Some? then Some(a.value + b.value) else None
  }

  /** The entries of a table's rows, in row order; `None` once a row raises. */
  function ExtractRows(rows: seq<Row>): Option<seq<VocabEntry>> {
    if rows == [] then Some([])
    else Then(ExtractRows(rows[..|rows| - 1]), RowEntries(rows[|rows| - 1]))
  }

  /** The entries of all tables, in table order; `None` once a row raises. */
  function ExtractTables(tables: seq<Table>): Option<seq<VocabEntry>> {
    if tables == [] then Some([])
    else Then(ExtractTables(tables[..|tables| - 1]), ExtractRows(tables[|tables| - 1]))
  }

  /** The value `parse_pdf` returns: every exception is caught and turns the
      whole result into the empty list. */
  function Parsed(tables: seq<Table>): seq<VocabEntry> {
    ExtractTables(tables).GetOr([])
  }

  /** The body of the row loop of `parse_pdf` for one row: the header test
      (which raises on a one-cell row), then the append of the columns-1/2
      pair and of the columns-4/5 pair. `raised` reports the `IndexError`. */
  method CollectRow(row: Row, vocab: seq<VocabEntry>) returns (raised: bool, out: seq<VocabEntry>)
    ensures raised <==> Raises(row)
    ensures !raised ==> out == vocab + RowEntries(row).value
  {
    raised, out := false, vocab;
    if |row| == 0 || row[0] == Some(HEADER_NUMBER) {
      return;
    }
    if |row| < 2 {
      raised := true;
      return;
    }
    if row[1] == Some(HEADER_WORD) {
      return;
    }
    if |row| >= 3 && Truthy(row[1]) && Truthy(row[2]) {
      var word := Strip(row[1].value);
      var meaning := ReplaceNewlines(Strip(row[2].value));
      if word != [] && meaning != [] {
        out := out + [VocabEntry(word, meaning)];
      }
    }
    assert out == vocab + PairAt(row, 1, 2);
    if |row| >= 6 && Truthy(row[4]) && Truthy(row[5]) {
      var word := Strip(row[4].value);
      var meaning := ReplaceNewlines(Strip(row[5].value));
      if word != [] && meaning != [] {
        out := out + [VocabEntry(word, meaning)];
      }
    }
    assert out == vocab + PairAt(row, 1, 2) + PairAt(row, 4, 5);
    ConcatAssoc(vocab, PairAt(row, 1, 2), PairAt(row, 4, 5));
  }

  /** The inner `for row in table` loop of `parse_pdf`: appends the entries
      of the table's rows in order, and stops at the first row that raises. */
  method CollectTable(table: Table, vocab: seq<VocabEntry>) returns (raised: bool, out: seq<VocabEntry>)
    ensures raised <==> ExtractRows(table).None?
    ensures !raised ==> out == vocab + ExtractRows(table).value
  {
    raised, out := false, vocab;
    ghost var mid := [];
    assert table[..0] == [];
    for r := 0 to |table|
      invariant out == vocab + mid
      invariant ExtractRows(table[..r]) == Some(mid)
    {
      var rowRaised, next := CollectRow(table[r], out);
      assert table[..r + 1][..r] == table[..r] && table[..r + 1][r] == table[r];
      if rowRaised {
        RowsErrorPersists(table, r + 1);
        raised := true;
        return;
      }
      ghost var entries := RowEntries(table[r]).value;
      ConcatAssoc(vocab, mid, entries);
      mid := mid + entries;
      out := next;
    }
    assert table[..|table|] == table;
  }

  /** The loops of `parse_pdf`: tables in order, and the first `IndexError`
      abandoning everything collected so far, since the except clause
      returns the empty list. */
  method ParsePdf(tables: seq<Table>) returns (vocab: seq<VocabEntry>)
    ensures vocab == Parsed(tables)
  {
    vocab := [];
    for t := 0 to |tables|
      invariant ExtractTables(tables[..t]) == Some(vocab)
    {
      var raised, next := CollectTable(tables[t], vocab);
      assert tables[..t + 1][..t] == tables[..t] && tables[..t + 1][t] == tables[t];
      if raised {
        TablesErrorPersists(tables, t + 1);
        return [];
      }
      vocab := next;
    }
    assert tables[..|tables|] == tables;
  }

  lemma ConcatAssoc<T>(a: seq<T>, b: seq<T>, c: seq<T>)
    ensures (a + b) + c == a + (b + c)
  {
  }

  /** Once a prefix of the rows raises, the whole table raises. */
  lemma {:induction false} RowsErrorPersists(rows: seq<Row>, k: nat)
    requires k <= |rows| && ExtractRows(rows[..k]) == None
    ensures ExtractRows(rows) == None
  {
    if k < |rows| {
      var p := rows[..|rows| - 1];
      assert p[..k] == rows[..k];
      RowsErrorPersists(p, k);
    } else {
      assert rows[..k] == rows;
    }
  }

  /** Once a prefix of the tables raises, the whole input raises. */
  lemma {:induction false} TablesErrorPersists(tables: seq<Table>, k: nat)
    requires k <= |tables| && ExtractTables(tables[..k]) == None
    ensures ExtractTables(tables) == None
  {
    if k < |tables| {
      var p := tables[..|tables| - 1];
      assert p[..k] == tables[..k];
      TablesErrorPersists(p, k);
    } else {
      assert tables[..k] == tables;
    }
  }

  /** A row raises exactly when it is a one-cell row whose cell is not "No.";
      a table raises exactly when one of its rows does. */
  lemma {:induction false} RowsRaiseIff(rows: seq<Row>)
    ensures ExtractRows(rows).None? <==> exists r :: 0 <= r < |rows| && Raises(rows[r])
  {
    if rows != [] {
      var p := rows[..|rows| - 1];
      RowsRaiseIff(p);
      if exists r :: 0 <= r < |p| && Raises(p[r]) {
        var r :| 0 <= r < |p| && Raises(p[r]);
        assert rows[r] == p[r];
      }
      if exists r :: 0 <= r < |rows| && Raises(rows[r]) {
        var r :| 0 <= r < |rows| && Raises(rows[r]);
        if r < |p| {
          assert p[r] == rows[r];
        }
      }
    }
  }

  /** The extraction raises exactly when some row of some table raises. */
  lemma {:induction false} TablesRaiseIff(tables: seq<Table>)
    ensures ExtractTables(tables).None? <==>
      exists t, r :: 0 <= t < |tables| && 0 <= r < |tables[t]| && Raises(tables[t][r])
  {
    if tables != [] {
      TablesRaiseIff(tables[..|tables| - 1]);
      RowsRaiseIff(tables[|tables| - 1]);
      RaisingRowSplit(tables);
    }
  }

  /** A raising row of a non-empty list of tables is in the tables before
      the last one or in the last one. */
  lemma RaisingRowSplit(tables: seq<Table>)
    requires tables != []
    ensures var p, last := tables[..|tables| - 1], tables[|tables| - 1];
      (exists t, r :: 0 <= t < |tables| && 0 <= r < |tables[t]| && Raises(tables[t][r])) <==>
        ((exists t, r :: 0 <= t < |p| && 0 <= r < |p[t]| && Raises(p[t][r]))
         || (exists r :: 0 <= r < |last| && Raises(last[r])))
  {
    var p, last := tables[..|tables| - 1], tables[|tables| - 1];
    if exists t, r :: 0 <= t < |p| && 0 <= r < |p[t]| && Raises(p[t][r]) {
      var t, r :| 0 <= t < |p| && 0 <= r < |p[t]| && Raises(p[t][r]);
      assert tables[t] == p[t];
    }
    if exists r :: 0 <= r < |last| && Raises(last[r]) {
      var r :| 0 <= r < |last| && Raises(last[r]);
      assert Raises(tables[|tables| - 1][r]);
    }
    if exists t, r :: 0 <= t < |tables| && 0 <= r < |tables[t]| && Raises(tables[t][r]) {
      var t, r :| 0 <= t < |tables| && 0 <= r < |tables[t]| && Raises(tables[t][r]);
      if t < |p| {
        assert p[t] == tables[t];
      }
    }
  }

  /** All or nothing: one row that raises anywhere empties the whole result,
      even when earlier rows yielded entries; otherwise the result is the
      concatenation of what every row yields. */
  lemma ParsedAllOrNothing(tables: seq<Table>)
    ensures (exists t, r :: 0 <= t < |tables| && 0 <= r < |tables[t]| && Raises(tables[t][r]))
      ==> Parsed(tables) == []
    ensures (forall t, r :: 0 <= t < |tables| && 0 <= r < |tables[t]| ==> !Raises(tables[t][r]))
      ==> ExtractTables(tables).Some? && Parsed(tables) == ExtractTables(tables).value
  {
    TablesRaiseIff(tables);
  }

  /** Every entry a table's rows yield is a valid entry. */
  lemma {:induction false} RowsValid(rows: seq<Row>)
    ensures ExtractRows(rows).Some? ==>
      forall i :: 0 <= i < |ExtractRows(rows).value| ==> ValidEntry(ExtractRows(rows).value[i])
  {
    if rows != [] {
      var p := rows[..|rows| - 1];
      RowsValid(p);
      var a, b := ExtractRows(p), RowEntries(rows[|rows| - 1]);
      if a.Some? && b.Some? {
        forall i | 0 <= i < |a.value + b.value| ensures ValidEntry((a.value + b.value)[i]) {
          if i >= |a.value| {
            assert (a.value + b.value)[i] == b.value[i - |a.value|];
          }
        }
      }
    }
  }

  /** Every entry `parse_pdf` returns has a non-empty word and meaning, with
      no surrounding whitespace, and a meaning without line feeds. */
  lemma {:induction false} ParsedEntriesValid(tables: seq<Table>)
    ensures forall i :: 0 <= i < |Parsed(tables)| ==> ValidEntry(Parsed(tables)[i])
  {
    if tables != [] {
      var p := tables[..|tables| - 1];
      ParsedEntriesValid(p);
      RowsValid(tables[|tables| - 1]);
      var a, b := ExtractTables(p), ExtractRows(tables[|tables| - 1]);
      if a.Some? && b.Some? {
        assert Parsed(tables) == a.value + b.value;
        assert Parsed(p) == a.value;
        forall i | 0 <= i < |a.value + b.value| ensures ValidEntry((a.value + b.value)[i]) {
          if i >= |a.value| {
            assert (a.value + b.value)[i] == b.value[i - |a.value|];
          } else {
            assert (a.value + b.value)[i] == Parsed(p)[i];
          }
        }
      }
    }
  }

  /** Input order is kept: the rows of a table split in two yield the
      entries of the first part followed by those of the second. */
  lemma {:induction false} RowsAppend(a: seq<Row>, b: seq<Row>)
    ensures ExtractRows(a + b) == Then(ExtractRows(a), ExtractRows(b))
    decreases |b|
  {
    if b == [] {
      assert a + b == a;
      if ExtractRows(a).Some? {
        assert ExtractRows(a).value + [] == ExtractRows(a).value;
      }
    } else {
      var b' := b[..|b| - 1];
      assert (a + b)[..|a + b| - 1] == a + b';
      assert (a + b)[|a + b| - 1] == b[|b| - 1];
      RowsAppend(a, b');
      var x, y, z := ExtractRows(a), ExtractRows(b'), RowEntries(b[|b| - 1]);
      if x.Some? && y.Some? && z.Some? {
        ConcatAssoc(x.value, y.value, z.value);
      }
    }
  }

  /** Input order is kept across tables (and so across pages): the entries
      of earlier tables come first. */
  lemma {:induction false} TablesAppend(a: seq<Table>, b: seq<Table>)
    ensures ExtractTables(a + b) == Then(ExtractTables(a), ExtractTables(b))
    decreases |b|
  {
    if b == [] {
      assert a + b == a;
      if ExtractTables(a).Some? {
        assert ExtractTables(a).value + [] == ExtractTables(a).value;
      }
    } else {
      var b' := b[..|b| - 1];
      assert (a + b)[..|a + b| - 1] == a + b';
      assert (a + b)[|a + b| - 1] == b[|b| - 1];
      TablesAppend(a, b');
      var x, y, z := ExtractTables(a), ExtractTables(b'), ExtractRows(b[|b| - 1]);
      if x.Some? && y.Some? && z.Some? {
        ConcatAssoc(x.value, y.value, z.value);
      }
    }
  }

  /** The number of rows of all tables. */
  function RowCount(tables: seq<Table>): nat {
    if tables == [] then 0 else RowCount(tables[..|tables| - 1]) + |tables[|tables| - 1]|
  }

  /** At most two entries per row. */
  lemma {:induction false} RowsLength(rows: seq<Row>)
    ensures ExtractRows(rows).Some? ==> |ExtractRows(rows).value| <= 2 * |rows|
  {
    if rows != [] {
      RowsLength(rows[..|rows| - 1]);
    }
  }

  /** `parse_pdf` returns at most two entries per table row. */
  lemma {:induction false} ParsedLength(tables: seq<Table>)
    ensures |Parsed(tables)| <= 2 * RowCount(tables)
  {
    if tables != [] {
      ParsedLength(tables[..|tables| - 1]);
      RowsLength(tables[|tables| - 1]);
    }
  }
}
