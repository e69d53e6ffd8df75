/**
 * Loading the bug table: every row's component columns are joined into one
 * `All_Components` text and dropped, and the table is then split into one
 * sub-table per component, each written to a CSV file named after it.
 */
module Preprocess {
  import opened Wrappers
  import opened Strings
  import opened Tables
  import opened Seqs

  /** The column that holds a row's joined components. */
  const AllComponents := "All_Components"

  // ---------------------------------------------------------------------
  // Joining a row's components (the row lambda)
  // ---------------------------------------------------------------------

  /** What the row lambda keeps of one cell: its stripped text, unless it is missing or blank. */
  function KeptCell(c: Cell): (ps: seq<string>)
    ensures |ps| <= 1
    ensures forall p :: p in ps ==> p != "" && Strip(p) == p
  {
    match c
    case Null => []
    case Text(s) =>
      var t := Strip(s);
      StripOfTrimmed(t);
      if t == "" then [] else [t]
  }

  /** The texts the row lambda keeps, in column order. */
  function Kept(cells: seq<Cell>): seq<string> {
    Concat(cells, KeptCell)
  }

  /** The `All_Components` text of a row: the kept texts joined by ", ". */
  function JoinComponents(cells: seq<Cell>): string {
    Join(", ", Kept(cells))
  }

  lemma KeptCellSpec(c: Cell, p: string)
    ensures p in KeptCell(c) <==> p != "" && c.Text? && Strip(c.s) == p
  {
  }

  /** A text is kept exactly when some present cell strips to it and it is not blank; kept texts are stripped. */
  lemma KeptSpec(cells: seq<Cell>, p: string)
    ensures p in Kept(cells)
        <==> p != "" && exists k :: 0 <= k < |cells| && cells[k].Text? && Strip(cells[k].s) == p
    ensures p in Kept(cells) ==> Strip(p) == p
  {
    ConcatSpec(cells, KeptCell, p);
    forall k | 0 <= k < |cells| {
      KeptCellSpec(cells[k], p);
    }
  }

  /** The cells of `row` in the listed columns, in the listed order. */
  function CellsOf(row: Row, cols: seq<string>): (cells: seq<Cell>)
    requires forall c :: c in cols ==> c in row
    ensures |cells| == |cols|
    ensures forall k :: 0 <= k < |cols| ==> cells[k] == row[cols[k]]
  {
    seq(|cols|, k requires 0 <= k < |cols| => row[cols[k]])
  }

  // ---------------------------------------------------------------------
  // load_and_preprocess
  // ---------------------------------------------------------------------

  /** pandas' `KeyError` for selecting columns the table does not have. */
  datatype LoadError = KeyError(missing: seq<string>)

  /** The listed columns the table lacks, in the listed order. */
  function Missing(columns: seq<string>, cols: seq<string>): (r: seq<string>)
    ensures forall c :: c in r <==> c in cols && c !in columns
  {
    if cols == [] then []
    else (if cols[0] in columns then [] else [cols[0]]) + Missing(columns, cols[1..])
  }

  /** A row without the named columns. */
  function DropKeys(row: Row, drop: set<string>): (r: Row)
    ensures r.Keys == row.Keys - drop
    ensures forall k :: k in r ==> r[k] == row[k]
  {
    map k | k in row && k !in drop :: row[k]
  }

  /** One row after preprocessing: `All_Components` set, then the component columns dropped. */
  function JoinedRow(row: Row, cols: seq<string>): Row
    requires forall c :: c in cols ==> c in row
  {
    DropKeys(row[AllComponents := Text(JoinComponents(CellsOf(row, cols)))], set c | c in cols)
  }

  /** The columns after preprocessing: `All_Components` replaces itself or is appended, then the component columns go. */
  function JoinedColumns(columns: seq<string>, cols: seq<string>): seq<string> {
    Without(if AllComponents in columns then columns else columns + [AllComponents], set c | c in cols)
  }

  /**
   * `load_and_preprocess` on the table `read_csv` returned: a `KeyError` when
   * a component column is missing, and otherwise the table with the joined
   * `All_Components` column and without the component columns. Its rows keep
   * their order, and `reset_index` numbers them 0..n-1.
   */
  function LoadAndPreprocess(df: Frame, cols: seq<string>): (r: Result<Frame, LoadError>)
    requires df.Valid()
    ensures r.Err? <==> exists c :: c in cols && c !in df.columns
    ensures r.Err? ==> forall c :: c in r.error.missing <==> c in cols && c !in df.columns
    ensures r.Ok? ==> |r.value.rows| == |df.rows|
    ensures r.Ok? ==> forall c :: c in cols ==> c !in r.value.columns
  {
    var missing := Missing(df.columns, cols);
    if missing != [] then
      assert missing[0] in missing;
      Err(KeyError(missing))
    else
      assert forall c :: c in cols ==> c in df.columns;
      Ok(Frame(JoinedColumns(df.columns, cols),
               seq(|df.rows|, i requires 0 <= i < |df.rows| => JoinedRow(df.rows[i], cols))))
  }

  /** Preprocessing keeps the table well formed: distinct columns, and rows with exactly those columns. */
  lemma LoadedValid(df: Frame, cols: seq<string>)
    requires df.Valid() && LoadAndPreprocess(df, cols).Ok?
    ensures LoadAndPreprocess(df, cols).value.Valid()
  {
    JoinedColumnsDistinct(df.columns, cols);
    LoadedRowKeys(df, cols);
  }

  lemma JoinedColumnsDistinct(columns: seq<string>, cols: seq<string>)
    requires Distinct(columns)
    ensures Distinct(JoinedColumns(columns, cols))
  {
    AddColumnDistinct(columns, AllComponents);
    WithoutDistinct(if AllComponents in columns then columns else columns + [AllComponents], set c | c in cols);
  }

  lemma LoadedRowKeys(df: Frame, cols: seq<string>)
    requires df.Valid() && LoadAndPreprocess(df, cols).Ok?
    ensures var out := LoadAndPreprocess(df, cols).value;
      forall r :: r in out.rows ==> r.Keys == set c | c in out.columns
  {
    var out := LoadAndPreprocess(df, cols).value;
    forall r | r in out.rows ensures r.Keys == set c | c in out.columns {
      var i :| 0 <= i < |out.rows| && out.rows[i] == r;
      assert df.rows[i] in df.rows;
    }
  }

  /** Adding a column that is not there yet keeps the column names distinct. */
  lemma AddColumnDistinct(columns: seq<string>, c: string)
    requires Distinct(columns)
    ensures Distinct(if c in columns then columns else columns + [c])
  {
    if c !in columns {
      var more := columns + [c];
      forall i, j | 0 <= i < j < |more| ensures more[i] != more[j] {
        if j < |columns| {
          assert more[i] == columns[i] && more[j] == columns[j];
        } else {
          assert more[i] == columns[i];
        }
      }
    }
  }

  /** Each preprocessed row holds its components' join and keeps every other remaining cell. */
  lemma LoadedRow(df: Frame, cols: seq<string>, i: nat)
    requires df.Valid() && LoadAndPreprocess(df, cols).Ok?
    requires AllComponents !in cols && i < |df.rows|
    ensures forall c :: c in cols ==> c in df.rows[i]
    ensures LoadAndPreprocess(df, cols).value.rows[i][AllComponents]
         == Text(JoinComponents(CellsOf(df.rows[i], cols)))
    ensures forall c :: c in LoadAndPreprocess(df, cols).value.rows[i] && c != AllComponents ==>
              LoadAndPreprocess(df, cols).value.rows[i][c] == df.rows[i][c]
  {
    assert df.rows[i] in df.rows;
  }

  // ---------------------------------------------------------------------
  // split_by_component
  // ---------------------------------------------------------------------

  /** What `split_by_component` reads: an `All_Components` column holding text in every row. */
  predicate Ready(df: Frame) {
    && AllComponents in df.columns
    && forall r: Row :: r in df.rows ==> AllComponents in r && r[AllComponents].Text?
  }

  function ComponentCell(row: Row): string
    requires AllComponents in row && row[AllComponents].Text?
  {
    row[AllComponents].s
  }

  /** What the comprehension adds for one comma piece: the piece, stripped. */
  function PieceComponent(piece: string): set<string> {
    {Strip(piece)}
  }

  /** What the first pass adds to the set for one cell: the stripped comma pieces of a non-empty cell. */
  function CellComponents(cell: string): set<string> {
    if cell == "" then {} else UnionOf(Split(cell, ','), PieceComponent)
  }

  /** What the first pass adds for one row (rows of a ready table always hold text). */
  function RowComponents(row: Row): set<string> {
    if AllComponents in row && row[AllComponents].Text? then CellComponents(row[AllComponents].s) else {}
  }

  /** The set of components once `''` is discarded. */
  function UniqueComponents(df: Frame): set<string> {
    UnionOf(df.rows, RowComponents) - {""}
  }

  /** A component is found exactly when it is not blank and is a stripped comma piece of some row's cell. */
  lemma UniqueComponentsSpec(df: Frame, c: string)
    requires Ready(df)
    ensures c in UniqueComponents(df)
        <==> c != "" && exists i :: 0 <= i < |df.rows| && c in CellComponents(ComponentCell(df.rows[i]))
  {
    UnionOfSpec(df.rows, RowComponents, c);
    forall i | 0 <= i < |df.rows| ensures RowComponents(df.rows[i]) == CellComponents(ComponentCell(df.rows[i])) {
      assert df.rows[i] in df.rows;
    }
  }

  /**
   * `re.split(r',\s*', s)`: `s` is cut at every comma, and the whitespace run
   * right after a comma goes with it. A whitespace run never holds a comma, so
   * this is `s.split(',')` with every piece after the first left-stripped.
   */
  function RegexSplit(s: string): (r: seq<string>)
    ensures |r| == |Split(s, ',')|
  {
    var parts := Split(s, ',');
    [parts[0]] + seq(|parts| - 1, k requires 0 <= k < |parts| - 1 => LStrip(parts[k + 1]))
  }

  /** The mask: the row's cell, split on `,\s*`, contains the component. */
  predicate InMask(row: Row, comp: string)
    requires AllComponents in row && row[AllComponents].Text?
  {
    comp in RegexSplit(ComponentCell(row))
  }

  /** The rows the mask selects, in table order, without `All_Components`. */
  function Matching(rows: seq<Row>, comp: string): (r: seq<Row>)
    requires forall r: Row :: r in rows ==> AllComponents in r && r[AllComponents].Text?
    ensures |r| <= |rows|
    ensures forall x :: x in r ==> AllComponents !in x
  {
    if rows == [] then []
    else (if InMask(rows[0], comp) then [DropKeys(rows[0], {AllComponents})] else [])
         + Matching(rows[1..], comp)
  }

  /** A component's sub-table: the selected rows, without the `All_Components` column. */
  function SubTable(df: Frame, comp: string): (r: Frame)
    requires Ready(df)
    ensures AllComponents !in r.columns
    ensures forall x :: x in r.rows ==> AllComponents !in x
  {
    Frame(Without(df.columns, {AllComponents}), Matching(df.rows, comp))
  }

  /** A row lands in a sub-table exactly when the mask selects it. */
  lemma MatchingSpec(rows: seq<Row>, comp: string, x: Row)
    requires forall r: Row :: r in rows ==> AllComponents in r && r[AllComponents].Text?
    ensures x in Matching(rows, comp)
        <==> exists i :: 0 <= i < |rows| && InMask(rows[i], comp) && x == DropKeys(rows[i], {AllComponents})
  {
    if x in Matching(rows, comp) {
      MatchingFrom(rows, comp, x);
    }
    forall i | 0 <= i < |rows| && InMask(rows[i], comp) && x == DropKeys(rows[i], {AllComponents})
      ensures x in Matching(rows, comp)
    {
      MatchingTo(rows, comp, i);
    }
  }

  lemma {:induction false} MatchingFrom(rows: seq<Row>, comp: string, x: Row)
    requires forall r: Row :: r in rows ==> AllComponents in r && r[AllComponents].Text?
    requires x in Matching(rows, comp)
    ensures exists i :: 0 <= i < |rows| && InMask(rows[i], comp) && x == DropKeys(rows[i], {AllComponents})
  {
    if !(InMask(rows[0], comp) && x == DropKeys(rows[0], {AllComponents})) {
      MatchingFrom(rows[1..], comp, x);
      var i :| 0 <= i < |rows| - 1 && InMask(rows[1..][i], comp) && x == DropKeys(rows[1..][i], {AllComponents});
      assert rows[i + 1] == rows[1..][i];
    }
  }

  lemma {:induction false} MatchingTo(rows: seq<Row>, comp: string, i: nat)
    requires forall r: Row :: r in rows ==> AllComponents in r && r[AllComponents].Text?
    requires i < |rows| && InMask(rows[i], comp)
    ensures DropKeys(rows[i], {AllComponents}) in Matching(rows, comp)
  {
    if i > 0 {
      assert rows[1..][i - 1] == rows[i];
      MatchingTo(rows[1..], comp, i - 1);
    }
  }

  /** `name.replace(" ", "_").replace("/", "_")`: the file name a component is written under. */
  function SafeFileName(name: string): (r: string)
    ensures |r| == |name|
    ensures forall i :: 0 <= i < |name| ==> r[i] == if name[i] == ' ' || name[i] == '/' then '_' else name[i]
  {
    var spaced := Replace(name, " ", "_");
    ReplaceCharAt(name, ' ', '_');
    ReplaceCharAt(spaced, '/', '_');
    Replace(spaced, "/", "_")
  }

  /** The directory `split_by_component` writes to when none is given. */
  const DefaultOutputDir := "./component_csvs"

  /** `os.path.join(dir, name)` for a relative `name`. */
  function PathJoin(dir: string, name: string): string {
    if dir == "" || dir[|dir| - 1] == '/' then dir + name else dir + "/" + name
  }

  /** The file a component's sub-table is written to. */
  function CsvPath(outputDir: string, comp: string): string {
    PathJoin(outputDir, SafeFileName(comp) + ".csv")
  }

  /** The component names of the dictionary's entries, in insertion order. */
  function Keys(entries: seq<(string, Frame)>): (r: seq<string>)
    ensures |r| == |entries|
    ensures forall k :: 0 <= k < |entries| ==> r[k] == entries[k].0
  {
    seq(|entries|, k requires 0 <= k < |entries| => entries[k].0)
  }

  /** The first pass of `split_by_component`: every stripped comma piece of every non-empty cell. */
  method GatherComponents(df: Frame) returns (unique: set<string>)
    requires Ready(df)
    ensures unique == UnionOf(df.rows, RowComponents)
  {
    unique := {};
    for i := 0 to |df.rows|
      invariant unique == UnionOf(df.rows[..i], RowComponents)
    {
      assert df.rows[i] in df.rows;
      UnionOfStep(df.rows, RowComponents, i);
      var cell := ComponentCell(df.rows[i]);
      if cell != "" {
        unique := AddPieces(unique, Split(cell, ','));
      }
    }
    assert df.rows[..|df.rows|] == df.rows;
  }

  /** The comprehension over one cell's comma pieces: each piece, stripped, is added to the set. */
  method AddPieces(unique: set<string>, pieces: seq<string>) returns (r: set<string>)
    ensures r == unique + UnionOf(pieces, PieceComponent)
  {
    r := unique;
    for k := 0 to |pieces|
      invariant r == unique + UnionOf(pieces[..k], PieceComponent)
    {
      UnionOfStep(pieces, PieceComponent, k);
      r := r + {Strip(pieces[k])};
    }
    assert pieces[..|pieces|] == pieces;
  }

  /**
   * `split_by_component`: the dictionary from each component to its sub-table,
   * as its entries in insertion order, and the CSV files written, one per
   * entry. The loop visits the set in an order Python leaves unspecified, so
   * any order is allowed.
   */
  method SplitByComponent(df: Frame, outputDir: string)
    returns (componentDfs: seq<(string, Frame)>, csvPaths: seq<string>)
    requires Ready(df)
    ensures Distinct(Keys(componentDfs))
    ensures forall c :: c in Keys(componentDfs) <==> c in UniqueComponents(df)
    ensures |csvPaths| == |componentDfs|
    ensures forall k :: 0 <= k < |componentDfs| ==>
              && componentDfs[k].1 == SubTable(df, componentDfs[k].0)
              && csvPaths[k] == CsvPath(outputDir, componentDfs[k].0)
  {
    var unique := GatherComponents(df);
    unique := unique - {""};

    var remaining := unique;
    componentDfs, csvPaths := [], [];
    while remaining != {}
      invariant remaining <= unique
      invariant forall c :: c in Keys(componentDfs) <==> c in unique && c !in remaining
      invariant Distinct(Keys(componentDfs))
      invariant EntriesMatch(df, outputDir, componentDfs, csvPaths)
      decreases |remaining|
    {
      var comp :| comp in remaining;
      var subDf := SubTable(df, comp);
      var csvPath := CsvPath(outputDir, comp);
      KeysSnoc(componentDfs, comp, subDf);
      EntriesSnoc(df, outputDir, componentDfs, csvPaths, comp);
      componentDfs := componentDfs + [(comp, subDf)];
      csvPaths := csvPaths + [csvPath];
      remaining := remaining - {comp};
    }
  }

  /** Each entry holds its component's sub-table, and each path names its component's file. */
  ghost predicate EntriesMatch(df: Frame, outputDir: string, entries: seq<(string, Frame)>, paths: seq<string>)
    requires Ready(df)
  {
    && |paths| == |entries|
    && forall k :: 0 <= k < |entries| ==>
         && entries[k].1 == SubTable(df, entries[k].0)
         && paths[k] == CsvPath(outputDir, entries[k].0)
  }

  lemma EntriesSnoc(df: Frame, outputDir: string, entries: seq<(string, Frame)>, paths: seq<string>, comp: string)
    requires Ready(df) && EntriesMatch(df, outputDir, entries, paths)
    ensures EntriesMatch(df, outputDir, entries + [(comp, SubTable(df, comp))], paths + [CsvPath(outputDir, comp)])
  {
  }

  lemma KeysSnoc(entries: seq<(string, Frame)>, comp: string, t: Frame)
    ensures Keys(entries + [(comp, t)]) == Keys(entries) + [comp]
  {
  }

  // ---------------------------------------------------------------------
  // How the two halves fit together
  // ---------------------------------------------------------------------

  /** `parts` with a space put in front of each. */
  function Spaced(parts: seq<string>): (r: seq<string>)
    ensures |r| == |parts|
    ensures forall k :: 0 <= k < |parts| ==> r[k] == " " + parts[k]
  {
    seq(|parts|, k requires 0 <= k < |parts| => " " + parts[k])
  }

  lemma JoinPrepend(sep: string, x: string, parts: seq<string>)
    requires parts != []
    ensures Join(sep, [x + parts[0]] + parts[1..]) == x + Join(sep, parts)
  {
    var lhs := [x + parts[0]] + parts[1..];
    assert lhs[1..] == parts[1..];
  }

  /** Joining with ", " is joining with "," after a space is put in front of every part but the first. */
  lemma {:induction false} JoinCommaSpace(a: string, rest: seq<string>)
    ensures Join(", ", [a] + rest) == Join([','], [a] + Spaced(rest))
    decreases |rest|
  {
    if rest != [] {
      JoinCommaSpace(rest[0], rest[1..]);
      assert [rest[0]] + rest[1..] == rest;
      var sp := [rest[0]] + Spaced(rest[1..]);
      JoinPrepend([','], " ", sp);
      assert [" " + sp[0]] + sp[1..] == Spaced(rest);
      JoinCons(", ", a, rest);
      JoinCons([','], a, Spaced(rest));
      assert [a] + Spaced(rest) == [a] + Spaced(rest);
    }
  }

  lemma LStripSpace(p: string)
    requires p == [] || !IsSpace(p[0])
    ensures LStrip(" " + p) == p
  {
    assert (" " + p)[1..] == p;
  }

  /** `re.split(r',\s*', ...)` undoes the ", " join of comma-free texts that do not start with whitespace. */
  lemma RegexSplitOfJoin(ps: seq<string>)
    requires ps != []
    requires forall p :: p in ps ==> ',' !in p && (p == [] || !IsSpace(p[0]))
    ensures RegexSplit(Join(", ", ps)) == ps
  {
    SpacedSplit(ps);
    RegexSplitSpaced(Join(", ", ps), ps);
  }

  lemma RegexSplitSpaced(s: string, ps: seq<string>)
    requires ps != [] && Split(s, ',') == [ps[0]] + Spaced(ps[1..])
    requires forall p :: p in ps ==> p == [] || !IsSpace(p[0])
    ensures RegexSplit(s) == ps
  {
    var parts := Split(s, ',');
    var r := RegexSplit(s);
    forall k | 0 <= k < |ps| ensures r[k] == ps[k] {
      if k > 0 {
        assert parts[k] == " " + ps[k];
        assert ps[k] in ps;
        LStripSpace(ps[k]);
      }
    }
  }

  lemma StripSpace(p: string)
    requires p == [] || (!IsSpace(p[0]) && !IsSpace(p[|p| - 1]))
    ensures Strip(" " + p) == p
  {
    LStripSpace(p);
    StripOfTrimmed(p);
  }

  /** The first pass finds exactly the texts of a ", " join of stripped, comma-free, non-blank texts. */
  lemma CellComponentsOfJoin(ps: seq<string>)
    requires forall p :: p in ps ==> ',' !in p && p != "" && Strip(p) == p
    ensures CellComponents(Join(", ", ps)) == set p | p in ps
  {
    if ps != [] {
      assert ps[0] in ps;
      JoinNotEmpty(ps);
      SpacedSplit(ps);
      var parts := Split(Join(", ", ps), ',');
      forall k | 0 <= k < |ps| ensures Strip(parts[k]) == ps[k] {
        StripSpacedPiece(ps, k);
      }
      UnionOfStripped(parts, ps);
    }
  }

  /** Pieces that strip to `ps` give exactly the texts of `ps`. */
  lemma UnionOfStripped(parts: seq<string>, ps: seq<string>)
    requires |parts| == |ps|
    requires forall k :: 0 <= k < |ps| ==> Strip(parts[k]) == ps[k]
    ensures UnionOf(parts, PieceComponent) == set p | p in ps
  {
    UnionOfSingletons(parts, PieceComponent, ps);
  }

  lemma JoinNotEmpty(ps: seq<string>)
    requires ps != [] && ps[0] != ""
    ensures Join(", ", ps) != ""
  {
    if |ps| > 1 { JoinCons(", ", ps[0], ps[1..]); assert [ps[0]] + ps[1..] == ps; }
  }

  lemma StripSpacedPiece(ps: seq<string>, k: nat)
    requires k < |ps|
    requires forall p :: p in ps ==> p != "" && Strip(p) == p
    ensures Strip(([ps[0]] + Spaced(ps[1..]))[k]) == ps[k]
  {
    var pieces := [ps[0]] + Spaced(ps[1..]);
    var p := ps[k];
    assert p in ps;
    if k == 0 {
      assert pieces[0] == p;
    } else {
      SpacedPiece(ps, k);
      StrippedStripSpace(p);
    }
  }

  lemma SpacedPiece(ps: seq<string>, k: nat)
    requires 0 < k < |ps|
    ensures ([ps[0]] + Spaced(ps[1..]))[k] == " " + ps[k]
  {
    assert ps[1..][k - 1] == ps[k];
  }

  lemma StrippedStripSpace(p: string)
    requires Strip(p) == p
    ensures Strip(" " + p) == p
  {
    StripSpace(p);
  }

  /** Splitting a ", " join on "," gives the texts back, every one but the first after a space. */
  lemma SpacedSplit(ps: seq<string>)
    requires ps != []
    requires forall p :: p in ps ==> ',' !in p
    ensures Split(Join(", ", ps), ',') == [ps[0]] + Spaced(ps[1..])
  {
    var rest := ps[1..];
    assert ps == [ps[0]] + rest;
    JoinCommaSpace(ps[0], rest);
    var parts := [ps[0]] + Spaced(rest);
    forall k | 0 <= k < |parts| ensures ',' !in parts[k] {
      assert ps[k] in ps;
      if k > 0 { assert parts[k] == " " + ps[k]; }
    }
    SplitJoin(parts, ',');
  }

  /** A strip of a comma-free text is comma-free. */
  lemma KeptCommaFree(cells: seq<Cell>, p: string)
    requires forall k :: 0 <= k < |cells| && cells[k].Text? ==> ',' !in cells[k].s
    requires p in Kept(cells)
    ensures ',' !in p
  {
    KeptSpec(cells, p);
    var k :| 0 <= k < |cells| && cells[k].Text? && Strip(cells[k].s) == p;
    if ',' in p {
      StripChars(cells[k].s, ',');
    }
  }

  /**
   * When no component cell holds a comma, every kept component of a row is
   * one of the components found, and the row is in that component's
   * sub-table.
   */
  lemma LoadedRowInItsSubTables(df: Frame, cols: seq<string>, i: nat, p: string)
    requires df.Valid() && LoadAndPreprocess(df, cols).Ok?
    requires AllComponents !in cols && i < |df.rows|
    requires forall c :: c in cols ==> c in df.rows[i]
    requires forall k :: 0 <= k < |cols| && df.rows[i][cols[k]].Text? ==> ',' !in df.rows[i][cols[k]].s
    requires p in Kept(CellsOf(df.rows[i], cols))
    ensures Ready(LoadAndPreprocess(df, cols).value)
    ensures p in UniqueComponents(LoadAndPreprocess(df, cols).value)
    ensures InMask(LoadAndPreprocess(df, cols).value.rows[i], p)
  {
    LoadedReady(df, cols);
    LoadedRow(df, cols, i);
    JoinedRowFound(LoadAndPreprocess(df, cols).value, i, CellsOf(df.rows[i], cols), p);
  }

  /** A row whose cell is the join of comma-free cells is found under each of their kept texts. */
  lemma JoinedRowFound(out: Frame, i: nat, cells: seq<Cell>, p: string)
    requires Ready(out) && i < |out.rows|
    requires out.rows[i][AllComponents] == Text(JoinComponents(cells))
    requires forall k :: 0 <= k < |cells| && cells[k].Text? ==> ',' !in cells[k].s
    requires p in Kept(cells)
    ensures p in UniqueComponents(out)
    ensures InMask(out.rows[i], p)
  {
    JoinedPiecesFound(cells, p);
    KeptSpec(cells, p);
    UniqueComponentsSpec(out, p);
  }

  /** Every kept text of comma-free cells is found by the first pass and selected by the mask. */
  lemma JoinedPiecesFound(cells: seq<Cell>, p: string)
    requires forall k :: 0 <= k < |cells| && cells[k].Text? ==> ',' !in cells[k].s
    requires p in Kept(cells)
    ensures p in CellComponents(JoinComponents(cells))
    ensures p in RegexSplit(JoinComponents(cells))
  {
    var ps := Kept(cells);
    forall q | q in ps ensures ',' !in q && q != "" && Strip(q) == q {
      KeptSpec(cells, q);
      KeptCommaFree(cells, q);
    }
    RegexSplitOfJoin(ps);
    CellComponentsOfJoin(ps);
  }

  /** Unless `All_Components` is itself a component column, the preprocessed table is ready to split. */
  lemma LoadedReady(df: Frame, cols: seq<string>)
    requires df.Valid() && LoadAndPreprocess(df, cols).Ok? && AllComponents !in cols
    ensures Ready(LoadAndPreprocess(df, cols).value)
  {
    var out := LoadAndPreprocess(df, cols).value;
    assert AllComponents in JoinedColumns(df.columns, cols);
    forall r: Row | r in out.rows ensures AllComponents in r && r[AllComponents].Text? {
      var i :| 0 <= i < |out.rows| && out.rows[i] == r;
      LoadedRow(df, cols, i);
    }
  }

  /**
   * The two passes disagree on whitespace before a comma: the first strips it,
   * the mask does not. A row whose cell reads "A , B" makes "A" a component,
   * yet the row is not in A's sub-table.
   */
  lemma SpaceBeforeCommaLeavesRowOut(a: string, b: string)
    requires a != "" && Strip(a) == a && ',' !in a
    requires ',' !in b && (b == "" || !IsSpace(b[0])) && b != a
    ensures a in CellComponents(a + " , " + b)
    ensures a !in RegexSplit(a + " , " + b)
  {
    assert a + " , " + b == (a + " ") + [','] + (" " + b);
    SpaceBeforeCommaFound(a, " " + b);
    SpaceBeforeCommaNotSelected(a, b);
  }

  lemma SpaceBeforeCommaFound(a: string, y: string)
    requires a != "" && Strip(a) == a && ',' !in a && ',' !in y
    ensures a in CellComponents((a + " ") + [','] + y)
  {
    SplitAroundComma(a + " ", y);
    TrailingSpaceStripped(a);
    var parts := Split((a + " ") + [','] + y, ',');
    assert a in PieceComponent(parts[0]);
    UnionOfSpec(parts, PieceComponent, a);
  }

  lemma SpaceBeforeCommaNotSelected(a: string, b: string)
    requires ',' !in a && ',' !in b && (b == "" || !IsSpace(b[0])) && b != a
    ensures a !in RegexSplit((a + " ") + [','] + (" " + b))
  {
    LStripSpace(b);
    RegexSplitAroundComma(a + " ", " " + b);
    assert a != a + " " by { assert |a| != |a + " "|; }
  }

  lemma RegexSplitAroundComma(x: string, y: string)
    requires ',' !in x && ',' !in y
    ensures RegexSplit(x + [','] + y) == [x, LStrip(y)]
  {
    SplitAroundComma(x, y);
    RegexSplitOfTwo(x + [','] + y, x, y);
  }

  lemma RegexSplitOfTwo(s: string, x: string, y: string)
    requires Split(s, ',') == [x, y]
    ensures RegexSplit(s) == [x, LStrip(y)]
  {
  }

  lemma SplitAroundComma(x: string, y: string)
    requires ',' !in x && ',' !in y
    ensures Split(x + [','] + y, ',') == [x, y]
  {
    SplitJoin([x, y], ',');
    assert [x, y][1..] == [y];
  }

  lemma TrailingSpaceStripped(a: string)
    requires a != "" && Strip(a) == a
    ensures Strip(a + " ") == a
  {
    var s := a + " ";
    assert s[0] == a[0];
    assert LStrip(s) == s;
    assert s[..|s| - 1] == a;
    assert RStrip(s) == RStrip(a);
    assert RStrip(a) == a;
  }

  /** Two different components can share a CSV file, the later one overwriting the earlier. */
  lemma SafeFileNamesCollide()
    ensures SafeFileName("a b") == SafeFileName("a/b") == "a_b"
  {
    var x, y := SafeFileName("a b"), SafeFileName("a/b");
    assert x[1] == '_' && y[1] == '_';
    assert x == [x[0], x[1], x[2]];
    assert y == [y[0], y[1], y[2]];
  }
}
