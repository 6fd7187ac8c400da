/** The two steps of transactions_ml_model/auto_categorize.py: gluing the
    physical lines of a bank export back into CSV rows (`clean_csv_newlines`)
    and the keyword pass that fills in blank categories in place
    (`auto_categorize_transactions`). */
module AutoCategorize {
  import opened Text
  import opened Options
  import opened Keywords
  import opened Frames
  import opened Seqs

  // ---------------------------------------------------------------------
  // clean_csv_newlines: the specification

  /** Text that passes for one whole CSV row: its double quotes pair up and it
      has at least the 12 semicolons that separate 13 fields. */
  predicate Complete(s: string) {
    Count('"', s) % 2 == 0 && Count(';', s) >= 12
  }

  /** `current_line` after taking in the next physical line: the line itself
      while nothing is pending, otherwise the line glued on after one space. */
  function Glue(current: string, line: string): string {
    if current == [] then line else current + " " + line
  }

  /** The loop state: the rows emitted so far and the pending text. */
  datatype Joiner = Joiner(cleaned: seq<string>, current: string)

  /** One iteration of the loop: glue the line on, then emit the pending
      text if its quotes are balanced and it has 12 separators. */
  function Feed(st: Joiner, line: string): Joiner {
    var current := Glue(st.current, line);
    if Count('"', current) % 2 == 1 then Joiner(st.cleaned, current)
    else if Count(';', current) >= 12 then Joiner(st.cleaned + [current], "")
    else Joiner(st.cleaned, current)
  }

  /** The loop state after the given lines. */
  function Scan(lines: seq<string>): Joiner {
    if lines == [] then Joiner([], "")
    else Feed(Scan(lines[..|lines| - 1]), lines[|lines| - 1])
  }

  /** Everything `clean_csv_newlines` writes, as a list of rows: the rows
      emitted by the loop, then the leftover text if it is not blank. */
  function CleanLines(lines: seq<string>): seq<string> {
    var st := Scan(lines);
    if Strip(st.current) != [] then st.cleaned + [st.current] else st.cleaned
  }

  /** The line-joining loop of `clean_csv_newlines` (auto_categorize.py:22-49),
      given `content.split('\n')`. */
  method CleanCsvNewlines(lines: seq<string>) returns (cleanedLines: seq<string>)
    ensures cleanedLines == CleanLines(lines)
  {
    cleanedLines := [];
    var currentLine := "";
    for i := 0 to |lines|
      invariant Joiner(cleanedLines, currentLine) == Scan(lines[..i])
    {
      assert lines[..i + 1][..i] == lines[..i];
      var line := lines[i];
      if currentLine == [] {
        currentLine := line;
      } else {
        currentLine := currentLine + " " + line;
      }
      var quoteCount := Count('"', currentLine);
      if quoteCount % 2 == 1 {
        continue;
      } else {
        if Count(';', currentLine) >= 12 {
          cleanedLines := cleanedLines + [currentLine];
          currentLine := "";
        }
      }
    }
    assert lines[..|lines|] == lines;
    if Strip(currentLine) != [] {
      cleanedLines := cleanedLines + [currentLine];
    }
  }

  // ---------------------------------------------------------------------
  // clean_csv_newlines: properties

  /** Every row the loop emits is complete, and the pending text never is. */
  lemma {:induction false} ScanShape(lines: seq<string>)
    ensures forall k :: 0 <= k < |Scan(lines).cleaned| ==> Complete(Scan(lines).cleaned[k])
    ensures !Complete(Scan(lines).current)
  {
    if lines != [] {
      ScanShape(lines[..|lines| - 1]);
    }
  }

  /** What `clean_csv_newlines` writes: complete rows, except possibly a last
      one, which is then the incomplete leftover and is not blank. */
  lemma CleanLinesShape(lines: seq<string>)
    ensures var out := CleanLines(lines);
      forall k :: 0 <= k < |out| ==> Complete(out[k]) || (k == |out| - 1 && Strip(out[k]) != [])
  {
    ScanShape(lines);
  }

  /** A file whose every line is already a complete row comes out unchanged. */
  lemma {:induction false} CompleteLinesUnchanged(lines: seq<string>)
    requires forall k :: 0 <= k < |lines| ==> Complete(lines[k])
    ensures Scan(lines) == Joiner(lines, "")
    ensures CleanLines(lines) == lines
  {
    if lines != [] {
      var init := lines[..|lines| - 1];
      CompleteLinesUnchanged(init);
      assert Scan(lines) == Feed(Joiner(init, ""), lines[|lines| - 1]);
      assert init + [lines[|lines| - 1]] == lines;
    }
  }

  /** How many times `c` occurs in all of `ls` together. */
  function CountAll(c: char, ls: seq<string>): nat {
    if ls == [] then 0 else CountAll(c, ls[..|ls| - 1]) + Count(c, ls[|ls| - 1])
  }

  lemma CountAllAppend(c: char, ls: seq<string>, s: string)
    ensures CountAll(c, ls + [s]) == CountAll(c, ls) + Count(c, s)
  {
    assert (ls + [s])[..|ls|] == ls;
  }

  /** Joining only adds spaces: every other character, quotes and
      semicolons included, occurs as often in the output as in the input
      (the blank leftover that is dropped holds none of them). */
  lemma {:induction false} ScanKeepsCounts(c: char, lines: seq<string>)
    requires c != ' '
    ensures CountAll(c, Scan(lines).cleaned) + Count(c, Scan(lines).current) == CountAll(c, lines)
  {
    if lines != [] {
      var init := lines[..|lines| - 1];
      var line := lines[|lines| - 1];
      ScanKeepsCounts(c, init);
      var st := Scan(init);
      assert Scan(lines) == Feed(st, line);
      GlueCount(c, st.current, line);
      FeedCases(st, line);
      if Emits(st, line) {
        CountAllAppend(c, st.cleaned, Glue(st.current, line));
      }
    }
  }

  /** The space `Glue` puts in is the only character it adds. */
  lemma GlueCount(c: char, current: string, line: string)
    requires c != ' '
    ensures Count(c, Glue(current, line)) == Count(c, current) + Count(c, line)
  {
    if current != [] {
      CountAppend(c, current + " ", line);
      CountAppend(c, current, " ");
    }
  }

  /** Text that `strip` empties holds no character other than whitespace. */
  lemma BlankCount(c: char, s: string)
    requires Strip(s) == [] && !IsSpace(c)
    ensures Count(c, s) == 0
  {
    StripSpec(s);
    CountAbsent(c, s);
  }

  lemma CleanLinesKeepCounts(c: char, lines: seq<string>)
    requires !IsSpace(c)
    ensures CountAll(c, CleanLines(lines)) == CountAll(c, lines)
  {
    ScanKeepsCounts(c, lines);
    var st := Scan(lines);
    if Strip(st.current) != [] {
      CountAllAppend(c, st.cleaned, st.current);
    } else {
      BlankCount(c, st.current);
    }
  }

  /** `" ".join(ls)`. */
  function SpaceJoin(ls: seq<string>): string {
    if ls == [] then ""
    else if |ls| == 1 then ls[0]
    else SpaceJoin(ls[..|ls| - 1]) + " " + ls[|ls| - 1]
  }

  /** The text a run of consecutive lines glues into. */
  function GlueAll(ls: seq<string>): string {
    if ls == [] then "" else Glue(GlueAll(ls[..|ls| - 1]), ls[|ls| - 1])
  }

  /** Gluing is `" ".join` of the run, once the empty lines that start it
      are dropped: they are absorbed without a space. */
  lemma {:induction false} GlueAllIsJoin(ls: seq<string>, z: nat)
    requires z <= |ls|
    requires forall k :: 0 <= k < z ==> ls[k] == ""
    requires z < |ls| ==> ls[z] != ""
    ensures GlueAll(ls) == SpaceJoin(ls[z..])
  {
    if ls != [] {
      var init := ls[..|ls| - 1];
      if z == |ls| {
        GlueAllIsJoin(init, z - 1);
        assert ls[z..] == [];
      } else if z == |ls| - 1 {
        GlueAllIsJoin(init, z);
        assert init[z..] == [];
        assert ls[z..] == [ls[z]];
      } else {
        GlueAllIsJoin(init, z);
        assert ls[z..][..|ls[z..]| - 1] == init[z..];
        GlueNonEmpty(init, z);
      }
    }
  }

  lemma {:induction false} GlueNonEmpty(ls: seq<string>, z: nat)
    requires z < |ls| && ls[z] != ""
    ensures GlueAll(ls) != ""
  {
    if z < |ls| - 1 {
      GlueNonEmpty(ls[..|ls| - 1], z);
    }
  }

  /** Whether feeding `line` emits a row. */
  predicate Emits(st: Joiner, line: string) {
    |Feed(st, line).cleaned| > |st.cleaned|
  }

  /** A step either emits the glued text and clears it, or keeps it pending. */
  lemma FeedCases(st: Joiner, line: string)
    ensures Emits(st, line) ==> Feed(st, line) == Joiner(st.cleaned + [Glue(st.current, line)], "")
    ensures !Emits(st, line) ==> Feed(st, line) == Joiner(st.cleaned, Glue(st.current, line))
  {
  }

  /** The physical lines behind each emitted row, and behind the pending text. */
  datatype Grouping = Grouping(runs: seq<seq<string>>, pending: seq<string>)

  function Group(lines: seq<string>): Grouping {
    if lines == [] then Grouping([], [])
    else
      var init := lines[..|lines| - 1];
      var g := Group(init);
      if Emits(Scan(init), lines[|lines| - 1]) then Grouping(g.runs + [g.pending + [lines[|lines| - 1]]], [])
      else Grouping(g.runs, g.pending + [lines[|lines| - 1]])
  }

  /** The runs laid end to end. */
  function Flatten(runs: seq<seq<string>>): seq<string> {
    if runs == [] then [] else Flatten(runs[..|runs| - 1]) + runs[|runs| - 1]
  }

  lemma GlueAllAppend(ls: seq<string>, line: string)
    ensures GlueAll(ls + [line]) == Glue(GlueAll(ls), line)
  {
    assert (ls + [line])[..|ls|] == ls;
  }

  lemma FlattenAppend(runs: seq<seq<string>>, run: seq<string>)
    ensures Flatten(runs + [run]) == Flatten(runs) + run
  {
    assert (runs + [run])[..|runs|] == runs;
  }

  /** The loop state `st` and the grouping `g` of `lines` agree: each
      emitted row is the glue of its nonempty run, the pending text is the
      glue of the pending lines, and the runs followed by the pending lines
      are exactly `lines`, in order. */
  predicate RunsMatch(st: Joiner, g: Grouping, lines: seq<string>) {
    && |g.runs| == |st.cleaned|
    && (forall k :: 0 <= k < |g.runs| ==> g.runs[k] != [] && st.cleaned[k] == GlueAll(g.runs[k]))
    && st.current == GlueAll(g.pending)
    && Flatten(g.runs) + g.pending == lines
  }

  /** Every emitted row is the glue of a nonempty run of consecutive input
      lines, the pending text is the glue of the lines after them, and the
      runs followed by the pending lines are exactly the input, in order. */
  lemma {:induction false} ScanRuns(lines: seq<string>)
    ensures RunsMatch(Scan(lines), Group(lines), lines)
  {
    if lines != [] {
      var init := lines[..|lines| - 1];
      var line := lines[|lines| - 1];
      ScanRuns(init);
      var st0, g0 := Scan(init), Group(init);
      var st, g := Scan(lines), Group(lines);
      assert st == Feed(st0, line);
      FeedCases(st0, line);
      GlueAllAppend(g0.pending, line);
      InitLast(lines);
      Associative(Flatten(g0.runs), g0.pending, [line]);
      if Emits(st0, line) {
        assert g == Grouping(g0.runs + [g0.pending + [line]], []);
        FlattenAppend(g0.runs, g0.pending + [line]);
        assert st.cleaned == st0.cleaned + [GlueAll(g0.pending + [line])];
      } else {
        assert g == Grouping(g0.runs, g0.pending + [line]);
      }
    }
  }

  // ---------------------------------------------------------------------
  // auto_categorize_transactions: the specification

  /** The text columns a row is matched on. `Nadawca` and `Odbiorca` are
      read with `row.get(..., '')`, so a frame without them gives `None`
      here and the empty string in the text. */
  datatype Row = Row(opis: Cell, nadawca: Option<Cell>, odbiorca: Option<Cell>, produkt: Cell)

  function OptionalText(c: Option<Cell>): string {
    if c.None? then "" else Render(c.value)
  }

  /** The lowered combined text of auto_categorize.py:116-118. */
  function SearchText(row: Row): string {
    LowerStr(CombinedText(Render(row.opis), OptionalText(row.nadawca), OptionalText(row.odbiorca), Render(row.produkt)))
  }

  /** The test of line 114: missing, or blank once stripped. */
  predicate Uncategorised(c: Cell) {
    c.NaN? || Strip(c.text) == []
  }

  /** A row's category cell after the search, and how many assignments the
      search made. */
  datatype Verdict = Verdict(cell: Cell, hits: nat)

  /** The two nested loops of lines 121-128 from entry `table[0]` on, with
      the cell as it stands: an entry with a matching keyword writes its
      name into the cell and counts one; then the search stops as soon as
      the cell differs from `''`, which a missing value also does. */
  function Search(cell: Cell, table: Table, lowered: string): Verdict
    decreases |table|
  {
    if table == [] then Verdict(cell, 0)
    else
      var after := if EntryMatches(table[0], lowered) then Verdict(Str(table[0].name), 1) else Verdict(cell, 0);
      if after.cell != Str("") then after
      else
        var rest := Search(after.cell, table[1..], lowered);
        Verdict(rest.cell, after.hits + rest.hits)
  }

  /** One iteration of the row loop (lines 113-128). */
  function CategorizeRow(cell: Cell, row: Row, table: Table): Verdict {
    if Uncategorised(cell) then Search(cell, table, SearchText(row)) else Verdict(cell, 0)
  }

  /** The category column after the whole pass. */
  function NewCells(cells: seq<Cell>, rows: seq<Row>, table: Table): (r: seq<Cell>)
    requires |cells| == |rows|
    ensures |r| == |rows|
  {
    seq(|rows|, j requires 0 <= j < |rows| => CategorizeRow(cells[j], rows[j], table).cell)
  }

  /** The final value of `auto_categorized`. */
  function TotalHits(cells: seq<Cell>, rows: seq<Row>, table: Table): nat
    requires |cells| == |rows|
  {
    if rows == [] then 0
    else TotalHits(cells[..|cells| - 1], rows[..|rows| - 1], table) + CategorizeRow(cells[|cells| - 1], rows[|rows| - 1], table).hits
  }

  /** The category column the pass starts from: the existing one, or the
      column of `''` that line 107 adds. */
  function StartCells(existing: seq<Cell>, hasColumn: bool): (r: seq<Cell>)
    ensures |r| == |existing|
  {
    if hasColumn then existing else seq(|existing|, _ => Str(""))
  }

  /** `auto_categorize_transactions` (auto_categorize.py:105-128) on a frame
      already read: `category` is the frame's `Category` column, present
      when `hasColumn` holds, updated in place. */
  method AutoCategorizeTransactions(rows: seq<Row>, category: array<Cell>, hasColumn: bool, table: Table)
    returns (autoCategorized: nat)
    requires category.Length == |rows|
    modifies category
    ensures var start := StartCells(old(category[..]), hasColumn);
      category[..] == NewCells(start, rows, table) && autoCategorized == TotalHits(start, rows, table)
  {
    if !hasColumn {
      for j := 0 to category.Length
        invariant forall k :: 0 <= k < j ==> category[k] == Str("")
      {
        category[j] := Str("");
      }
    }
    ghost var start := category[..];
    assert start == StartCells(old(category[..]), hasColumn);
    autoCategorized := 0;
    for idx := 0 to |rows|
      invariant forall k :: idx <= k < |rows| ==> category[k] == start[k]
      invariant forall k :: 0 <= k < idx ==> category[k] == CategorizeRow(start[k], rows[k], table).cell
      invariant autoCategorized == TotalHits(start[..idx], rows[..idx], table)
    {
      ghost var v := CategorizeRow(start[idx], rows[idx], table);
      CategorizeRowCases(start[idx], rows[idx], table);
      var cell := category[idx];
      if cell.NaN? || Strip(cell.text) == [] {
        var hits := SearchRow(category, idx, SearchText(rows[idx]), table);
        autoCategorized := autoCategorized + hits;
      }
      assert category[idx] == v.cell;
      RowHits(start, rows, table, idx);
    }
    assert start[..|rows|] == start && rows[..|rows|] == rows;
  }

  /** The two nested loops of auto_categorize.py:121-128 for the row at
      `idx`, writing into its category cell. */
  method SearchRow(category: array<Cell>, idx: nat, lowered: string, table: Table) returns (hits: nat)
    requires idx < category.Length
    modifies category
    ensures var v := Search(old(category[idx]), table, lowered); category[idx] == v.cell && hits == v.hits
    ensures forall k :: 0 <= k < category.Length && k != idx ==> category[k] == old(category[k])
  {
    ghost var goal := Search(category[idx], table, lowered);
    hits := 0;
    var t := 0;
    while t < |table|
      invariant t <= |table|
      invariant forall k :: 0 <= k < category.Length && k != idx ==> category[k] == old(category[k])
      invariant var rest := Search(category[idx], table[t..], lowered);
        goal.cell == rest.cell && goal.hits == hits + rest.hits
    {
      var found := KeywordSearch(table[t], lowered);
      assert table[t..][0] == table[t] && table[t..][1..] == table[t + 1..];
      if found {
        category[idx] := Str(table[t].name);
        hits := hits + 1;
      }
      if category[idx] != Str("") {
        break;
      }
      t := t + 1;
    }
  }

  /** The inner loop of auto_categorize.py:122-126: does some keyword of
      the entry, lowered, occur in the text? */
  method KeywordSearch(entry: Entry, lowered: string) returns (found: bool)
    ensures found == EntryMatches(entry, lowered)
  {
    var keywords := entry.keywords;
    for k := 0 to |keywords|
      invariant forall m :: 0 <= m < k ==> !KeywordHits(keywords[m], lowered)
    {
      if KeywordHits(keywords[k], lowered) {
        return true;
      }
    }
    return false;
  }

  lemma CategorizeRowCases(cell: Cell, row: Row, table: Table)
    ensures Uncategorised(cell) ==> CategorizeRow(cell, row, table) == Search(cell, table, SearchText(row))
    ensures !Uncategorised(cell) ==> CategorizeRow(cell, row, table) == Verdict(cell, 0)
  {
  }

  lemma RowHits(cells: seq<Cell>, rows: seq<Row>, table: Table, idx: nat)
    requires |cells| == |rows| && idx < |rows|
    ensures TotalHits(cells[..idx + 1], rows[..idx + 1], table)
         == TotalHits(cells[..idx], rows[..idx], table) + CategorizeRow(cells[idx], rows[idx], table).hits
  {
    assert cells[..idx + 1][..idx] == cells[..idx];
    assert rows[..idx + 1][..idx] == rows[..idx];
  }

  // ---------------------------------------------------------------------
  // auto_categorize_transactions: properties

  /** Every category name in the table is itself a category, not a blank. */
  predicate NamesAreCategories(table: Table) {
    forall i :: 0 <= i < |table| ==> !Uncategorised(Str(table[i].name))
  }

  /** Started from `''`, the search assigns the first entry in table order
      with a keyword in the text, once, or leaves `''` when none has one. */
  lemma {:induction false} SearchFromEmpty(table: Table, lowered: string)
    requires NamesAreCategories(table)
    ensures Search(Str(""), table, lowered) ==
      match FirstMatch(table, lowered)
      case None => Verdict(Str(""), 0)
      case Some(i) => Verdict(Str(table[i].name), 1)
  {
    if table != [] && !EntryMatches(table[0], lowered) {
      assert forall i :: 0 <= i < |table[1..]| ==> table[1..][i] == table[i + 1];
      SearchFromEmpty(table[1..], lowered);
    } else if table != [] {
      assert Strip("") == [];
    }
  }

  /** A missing value, or a non-empty cell of whitespace, differs from `''`
      already, so the search stops after the first table entry: only that
      entry's keywords are ever tried. */
  lemma SearchStopsAtFirstEntry(cell: Cell, table: Table, lowered: string)
    requires cell != Str("") && NamesAreCategories(table)
    ensures table == [] ==> Search(cell, table, lowered) == Verdict(cell, 0)
    ensures table != [] ==>
      Search(cell, table, lowered) == (if EntryMatches(table[0], lowered) then Verdict(Str(table[0].name), 1) else Verdict(cell, 0))
  {
    if table != [] {
      assert Strip("") == [];
    }
  }

  /** A row is assigned at most once; it is assigned exactly when its cell
      changes, and an assigned cell holds a category. */
  lemma RowAssignedOnce(cell: Cell, row: Row, table: Table)
    requires NamesAreCategories(table)
    ensures var v := CategorizeRow(cell, row, table);
      && v.hits <= 1
      && (v.hits == 1 <==> v.cell != cell)
      && (v.hits == 1 ==> !Uncategorised(v.cell))
  {
    CategorizeRowCases(cell, row, table);
    if Uncategorised(cell) {
      var lowered := SearchText(row);
      if cell == Str("") {
        SearchFromEmpty(table, lowered);
      } else {
        SearchStopsAtFirstEntry(cell, table, lowered);
      }
    }
  }

  /** How many cells differ between two columns of the same length. */
  function Changed(before: seq<Cell>, after: seq<Cell>): nat
    requires |before| == |after|
  {
    if before == [] then 0
    else Changed(before[..|before| - 1], after[..|after| - 1]) + (if before[|before| - 1] != after[|after| - 1] then 1 else 0)
  }

  lemma NewCellsPrefix(cells: seq<Cell>, rows: seq<Row>, table: Table)
    requires |cells| == |rows| && rows != []
    ensures NewCells(cells, rows, table)[..|rows| - 1] == NewCells(cells[..|cells| - 1], rows[..|rows| - 1], table)
  {
  }

  /** The final `auto_categorized` is the number of rows whose category the
      pass changed. */
  lemma {:induction false} CountIsChangedRows(cells: seq<Cell>, rows: seq<Row>, table: Table)
    requires |cells| == |rows| && NamesAreCategories(table)
    ensures TotalHits(cells, rows, table) == Changed(cells, NewCells(cells, rows, table))
  {
    if rows != [] {
      var n := |rows|;
      var after := NewCells(cells, rows, table);
      CountIsChangedRows(cells[..n - 1], rows[..n - 1], table);
      NewCellsPrefix(cells, rows, table);
      var v := CategorizeRow(cells[n - 1], rows[n - 1], table);
      RowAssignedOnce(cells[n - 1], rows[n - 1], table);
      assert after[n - 1] == v.cell;
      assert (if cells[n - 1] != after[n - 1] then 1 else 0) == v.hits;
      assert TotalHits(cells, rows, table) == TotalHits(cells[..n - 1], rows[..n - 1], table) + v.hits;
      assert Changed(cells, after) == Changed(cells[..n - 1], after[..n - 1]) + v.hits;
    }
  }

  /** Where line 107 added the column, every row ends with the name of the
      first entry in table order that has a keyword in its text, or `''`. */
  lemma AddedColumnGetsFirstMatch(existing: seq<Cell>, rows: seq<Row>, table: Table, j: nat)
    requires |existing| == |rows| && j < |rows| && NamesAreCategories(table)
    ensures NewCells(StartCells(existing, false), rows, table)[j] ==
      match FirstMatch(table, SearchText(rows[j]))
      case None => Str("")
      case Some(i) => Str(table[i].name)
  {
    var start := StartCells(existing, false);
    assert start[j] == Str("");
    assert Strip("") == [];
    CategorizeRowCases(start[j], rows[j], table);
    SearchFromEmpty(table, SearchText(rows[j]));
  }
}
