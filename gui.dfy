/**
 * The decision rules inside the desktop window: how the chunk-size choice is
 * read, how project cells are split and component labels cleaned, how the
 * project list is built and sorted, how the model list is built and a default
 * model chosen, and how many summary tasks a run has. Widgets, threads and
 * progress reporting are not modelled.
 */
module Gui {
  import opened Wrappers
  import opened Strings
  import opened Sorting
  import opened Tables
  import opened Seqs

  // ---------------------------------------------------------------------
  // Python's int() on a string, base 10
  // ---------------------------------------------------------------------

  predicate IsDigit(c: char) {
    '0' <= c <= '9'
  }

  /** The value of a digit character; 0 for anything else. */
  function Digit(c: char): nat {
    if IsDigit(c) then (c as int) - ('0' as int) else 0
  }

  /** The digit character for `d`. */
  function DigitChar(d: nat): char
    requires d < 10
  {
    ('0' as int + d) as char
  }

  /**
   * Digits, where a single underscore may stand between two digits, as
   * Python's `int()` accepts them: `"1_000"` but not `"_1"`, `"1_"` or `"1__0"`.
   */
  predicate DigitGroups(b: string) {
    && b != ""
    && IsDigit(b[0])
    && (forall i :: 0 <= i < |b| ==> IsDigit(b[i]) || (b[i] == '_' && i + 1 < |b| && IsDigit(b[i + 1])))
  }

  /** The number the digits of `b` spell, underscores skipped. */
  function DigitsValue(b: string): nat {
    if b == [] then 0
    else if b[|b| - 1] == '_' then DigitsValue(b[..|b| - 1])
    else DigitsValue(b[..|b| - 1]) * 10 + Digit(b[|b| - 1])
  }

  /**
   * The most digits `int()` reads from a decimal string: CPython's default
   * for `sys.get_int_max_str_digits()`.
   */
  const MaxStrDigits := 4300

  /** How many digits `b` holds, underscores not counted. */
  function DigitCount(b: string): nat {
    if b == [] then 0
    else DigitCount(b[..|b| - 1]) + (if IsDigit(b[|b| - 1]) then 1 else 0)
  }

  /** In a string of digits alone, every character counts. */
  lemma {:induction false} AllDigitsCount(b: string)
    requires forall i :: 0 <= i < |b| ==> IsDigit(b[i])
    ensures DigitCount(b) == |b|
  {
    if b != [] {
      AllDigitsCount(b[..|b| - 1]);
    }
  }

  /**
   * `int(s)`: surrounding whitespace, an optional sign, then digit groups of
   * at most 4300 digits; `None` where Python raises `ValueError`.
   */
  function ParseInt(s: string): Option<int> {
    ParseSigned(Strip(s))
  }

  /** An optional sign followed by digit groups, within the digit limit. */
  function ParseSigned(t: string): Option<int> {
    if t == "" then None
    else
      var body := if t[0] == '-' || t[0] == '+' then t[1..] else t;
      if !DigitGroups(body) || DigitCount(body) > MaxStrDigits then None
      else
        var v: int := DigitsValue(body);
        Some(if t[0] == '-' then -v else v)
  }

  /** `str(n)` for a natural number. */
  function NatToString(n: nat): (s: string)
    ensures s != ""
    ensures forall i :: 0 <= i < |s| ==> IsDigit(s[i])
    ensures DigitsValue(s) == n
  {
    if n < 10 then [DigitChar(n)]
    else
      var init := NatToString(n / 10);
      var s := init + [DigitChar(n % 10)];
      assert s[..|s| - 1] == init;
      s
  }

  /** `str(n)`. */
  function IntToString(n: int): string {
    if n < 0 then "-" + NatToString(-n) else NatToString(n)
  }

  /** `10^k`. */
  function Pow10(k: nat): (r: nat)
    ensures r >= 1
  {
    if k == 0 then 1 else 10 * Pow10(k - 1)
  }

  /** `str(n)` has at most `k` digits exactly when `n < 10^k`. */
  lemma {:induction false} DigitsWithin(n: nat, k: nat)
    requires k >= 1
    ensures |NatToString(n)| <= k <==> n < Pow10(k)
  {
    if n >= 10 {
      assert |NatToString(n)| == |NatToString(n / 10)| + 1;
      if k > 1 {
        DigitsWithin(n / 10, k - 1);
      }
    } else if k > 1 {
      assert Pow10(k) == 10 * Pow10(k - 1);
    }
  }

  /**
   * `str(n)` has at most 4300 digits, the sign not counted; by
   * `DigitsWithin`, this is `-10^4300 < n < 10^4300`.
   */
  predicate FitsDigitLimit(n: int) {
    |NatToString(if n < 0 then -n else n)| <= MaxStrDigits
  }

  /** `int(str(n))` gives `n` back within the digit limit and fails beyond it. */
  lemma ParseIntToString(n: int)
    ensures ParseInt(IntToString(n)) == if FitsDigitLimit(n) then Some(n) else None
  {
    IntToStringStripped(n);
    ParseSignedToString(n);
  }

  lemma IntToStringStripped(n: int)
    ensures Strip(IntToString(n)) == IntToString(n)
  {
    var s := IntToString(n);
    var digits := NatToString(if n < 0 then -n else n);
    assert s[|s| - 1] == digits[|digits| - 1];
    assert s[0] == '-' || s[0] == digits[0];
    Trimmed(s);
  }

  lemma Trimmed(s: string)
    requires s != [] && !IsSpace(s[0]) && !IsSpace(s[|s| - 1])
    ensures Strip(s) == s
  {
    StripOfTrimmed(s);
  }

  lemma ParseSignedToString(n: int)
    ensures ParseSigned(IntToString(n)) == if FitsDigitLimit(n) then Some(n) else None
  {
    var s := IntToString(n);
    var digits := NatToString(if n < 0 then -n else n);
    AllDigitsCount(digits);
    if n < 0 {
      assert s[1..] == digits;
    }
  }

  /** A string with no digit in it is not a number. */
  lemma ParseIntNeedsDigit(s: string)
    requires forall i :: 0 <= i < |s| ==> !IsDigit(s[i])
    ensures ParseInt(s) == None
  {
    var t := Strip(s);
    if t != "" {
      var body := if t[0] == '-' || t[0] == '+' then t[1..] else t;
      if body != "" {
        assert body[0] in t;
        StripChars(s, body[0]);
      }
    }
  }

  // ---------------------------------------------------------------------
  // Chunk size
  // ---------------------------------------------------------------------

  /** The choice that puts every report in one prompt. */
  const AllAtOnce := "Process All at Once"

  /** The chunk size used when the choice is not a number. */
  const DefaultChunkSize := 5

  /** The choices offered in the drop-down; the field also accepts typed text. */
  const ChunkChoices: seq<string> := ["5", "10", "25", "50", AllAtOnce]

  /**
   * The chunk size for a run over `reportCount` reports: one more than the
   * report count for "Process All at Once", otherwise `int()` of the choice
   * with no bound on the value checked, and 5 when `int()` fails.
   */
  function ResolveChunkSize(choice: string, reportCount: nat): int {
    if choice == AllAtOnce then reportCount + 1
    else match ParseInt(choice)
      case Some(n) => n
      case None => DefaultChunkSize
  }

  /** "Process All at Once" gives a chunk larger than the whole run. */
  lemma AllAtOnceExceedsReports(reportCount: nat)
    ensures ResolveChunkSize(AllAtOnce, reportCount) > reportCount
  {
  }

  /**
   * A written integer of at most 4300 digits is used as it is, zero and
   * negative ones included; a longer one falls back to 5.
   */
  lemma WrittenSizeIsUsed(n: int, reportCount: nat)
    ensures ResolveChunkSize(IntToString(n), reportCount) == if FitsDigitLimit(n) then n else DefaultChunkSize
  {
    ParseIntToString(n);
    var s := IntToString(n);
    var digits := NatToString(if n < 0 then -n else n);
    assert s[|s| - 1] == digits[|digits| - 1];
    EndsInDigit(s);
  }

  /** Text ending in a digit is not the all-at-once choice. */
  lemma EndsInDigit(s: string)
    requires s != [] && IsDigit(s[|s| - 1])
    ensures s != AllAtOnce
  {
    assert !IsDigit(AllAtOnce[|AllAtOnce| - 1]);
  }

  /** A choice without a digit falls back to 5. */
  lemma WordChoiceFallsBack(choice: string, reportCount: nat)
    requires choice != AllAtOnce
    requires forall i :: 0 <= i < |choice| ==> !IsDigit(choice[i])
    ensures ResolveChunkSize(choice, reportCount) == DefaultChunkSize
  {
    ParseIntNeedsDigit(choice);
  }

  // ---------------------------------------------------------------------
  // Project cells and component labels
  // ---------------------------------------------------------------------

  /** The label given to a missing or empty component. */
  const General := "General"

  function StripAll(parts: seq<string>): (r: seq<string>)
    ensures |r| == |parts|
    ensures forall k :: 0 <= k < |r| ==> r[k] == Strip(parts[k])
  {
    if parts == [] then [] else [Strip(parts[0])] + StripAll(parts[1..])
  }

  /** `[p.strip() for p in cell.split(',')]`: the projects one cell names, one exploded row each. */
  function ProjectPieces(cell: string): (ps: seq<string>)
    ensures |ps| == |Split(cell, ',')|
  {
    StripAll(Split(cell, ','))
  }

  /** Writing stripped, comma-free project names with commas between them and splitting the cell gives the names back. */
  lemma ProjectPiecesOfJoin(names: seq<string>)
    requires |names| >= 1
    requires forall k :: 0 <= k < |names| ==> ',' !in names[k] && Strip(names[k]) == names[k]
    ensures ProjectPieces(Join([','], names)) == names
  {
    SplitJoin(names, ',');
  }

  /** One cleaned component: stripped, every `"<project>_"` removed, and `'General'` if nothing is left. */
  function CleanComponent(project: string, piece: string): (c: string)
    ensures c != ""
  {
    var r := Replace(Strip(piece), project + "_", "");
    if r == "" then General else r
  }

  function CleanAll(project: string, pieces: seq<string>): (cs: seq<string>)
    ensures |cs| == |pieces|
    ensures forall k :: 0 <= k < |cs| ==> cs[k] == CleanComponent(project, pieces[k])
  {
    if pieces == [] then [] else [CleanComponent(project, pieces[0])] + CleanAll(project, pieces[1..])
  }

  /** The component text after `fillna('General')`. */
  function ComponentText(cell: Cell): string {
    match cell
    case Null => General
    case Text(s) => s
  }

  /** `clean_components`: one cleaned label per comma-separated piece of the component cell. */
  function CleanComponents(project: string, cell: Cell): (cs: seq<string>)
    ensures |cs| == |Split(ComponentText(cell), ',')| >= 1
    ensures forall c :: c in cs ==> c != ""
  {
    CleanAll(project, Split(ComponentText(cell), ','))
  }

  /** Every character of a contained string occurs in the containing one. */
  lemma ContainedChar(t: string, w: string, k: nat)
    requires k < |w| && Contains(t, w)
    ensures w[k] in t
  {
    var i :| OccursAt(t, w, i);
    assert t[i + k] == w[k];
  }

  /** A missing component cell gives the single label `'General'`. */
  lemma MissingComponentIsGeneral(project: string)
    ensures CleanComponents(project, Null) == [General]
  {
    assert General[0] == 'G' && General[|General| - 1] == 'l';
    assert ',' !in General && '_' !in General;
    Trimmed(General);
    SingleLabel(project, General);
  }

  /** A stripped text without commas or underscores is one label, kept as it is. */
  lemma SingleLabel(project: string, text: string)
    requires text != "" && Strip(text) == text && ',' !in text && '_' !in text
    ensures CleanAll(project, Split(text, ',')) == [text]
  {
    SplitWithoutSeparator(text, ',');
    NoUnderscoreNoPrefix(text, project);
    CleanUntouched(project, text);
  }

  /** A stripped label that does not contain the project prefix is kept as it is. */
  lemma CleanUntouched(project: string, piece: string)
    requires piece != "" && Strip(piece) == piece && !Contains(piece, project + "_")
    ensures CleanComponent(project, piece) == piece
  {
  }

  lemma NoUnderscoreNoPrefix(t: string, project: string)
    requires '_' !in t
    ensures !Contains(t, project + "_")
  {
    if Contains(t, project + "_") {
      ContainedChar(t, project + "_", |project|);
    }
  }

  /** A label written as `"<project>_<name>"` is cleaned to `<name>`. */
  lemma ProjectPrefixRemoved(project: string, name: string)
    requires name != "" && !Contains(name, project + "_")
    requires Strip(project + "_" + name) == project + "_" + name
    ensures CleanComponent(project, project + "_" + name) == name
  {
    var prefix := project + "_";
    assert prefix + name == project + "_" + name;
    assert prefix <= prefix + name;
    assert (prefix + name)[|prefix|..] == name;
  }

  /** A label that is nothing but the project prefix becomes `'General'`. */
  lemma BarePrefixIsGeneral(project: string, piece: string)
    requires piece == project + "_" && (project == "" || !IsSpace(project[0]))
    ensures CleanComponent(project, piece) == General
  {
    assert piece[0] == (if project == "" then '_' else project[0]);
    StripOfTrimmed(piece);
    ReplaceWhole(piece);
  }

  lemma ReplaceWhole(p: string)
    requires p != []
    ensures Replace(p, p, "") == ""
  {
    assert p <= p;
    assert p[|p|..] == [];
  }

  // ---------------------------------------------------------------------
  // The project list
  // ---------------------------------------------------------------------

  /** One row of the CSV file as the project list reads it: its project and component cells. */
  datatype BugRecord = BugRecord(project: Cell, component: Cell)

  /** A row after the project cell is exploded: one project and its cleaned component labels. */
  datatype ExplodedRow = ExplodedRow(project: string, components: seq<string>)

  function ExplodeProjects(projects: seq<string>, component: Cell): (rows: seq<ExplodedRow>)
    ensures |rows| == |projects|
    ensures forall k :: 0 <= k < |rows| ==> rows[k] == ExplodedRow(projects[k], CleanComponents(projects[k], component))
  {
    if projects == [] then []
    else [ExplodedRow(projects[0], CleanComponents(projects[0], component))] + ExplodeProjects(projects[1..], component)
  }

  /** A row with no project is dropped; any other becomes one row per project piece of its cell. */
  function ExplodeRecord(r: BugRecord): seq<ExplodedRow> {
    match r.project
    case Null => []
    case Text(s) => ExplodeProjects(ProjectPieces(s), r.component)
  }

  /** `dropna`, split, `explode` and `clean_components` over the whole file, in row order. */
  function Explode(records: seq<BugRecord>): seq<ExplodedRow> {
    Concat(records, ExplodeRecord)
  }

  function ProjectOf(e: ExplodedRow): seq<string> {
    [e.project]
  }

  function ComponentsOfRow(e: ExplodedRow): seq<string> {
    e.components
  }

  function NameKey(s: string): Key {
    StrKey(s)
  }

  /** `unique()`: the distinct values in order of first occurrence. */
  function Unique(xs: seq<string>): (u: seq<string>)
    ensures Distinct(u)
    ensures forall x :: x in u <==> x in xs
    ensures |u| <= |xs|
  {
    if xs == [] then []
    else
      var init := Unique(xs[..|xs| - 1]);
      var last := xs[|xs| - 1];
      assert xs == xs[..|xs| - 1] + [last];
      if last in init then init
      else
        DistinctSnoc(init, last);
        init + [last]
  }

  lemma DistinctSnoc(names: seq<string>, x: string)
    requires Distinct(names) && x !in names
    ensures Distinct(names + [x])
  {
  }

  /** The group keys of `groupby`: the distinct projects in ascending order, `''` included. */
  function GroupKeys(ex: seq<ExplodedRow>): seq<string> {
    Unique(SortBy(Concat(ex, ProjectOf), NameKey, false))
  }

  /** The exploded rows of one project. */
  function Group(ex: seq<ExplodedRow>, name: string): (g: seq<ExplodedRow>)
    ensures |g| <= |ex|
    ensures forall e :: e in g <==> e in ex && e.project == name
  {
    if ex == [] then []
    else Group(ex[..|ex| - 1], name) + (if ex[|ex| - 1].project == name then [ex[|ex| - 1]] else [])
  }

  /**
   * A project's group keeps every exploded row of that project as often as
   * it occurs, and no other row; so its length, the report count, is the
   * number of the project's exploded rows.
   */
  lemma {:induction false} GroupMultiplicity(ex: seq<ExplodedRow>, name: string)
    ensures forall e :: multiset(Group(ex, name))[e] == if e.project == name then multiset(ex)[e] else 0
  {
    if ex != [] {
      GroupMultiplicity(ex[..|ex| - 1], name);
      assert ex == ex[..|ex| - 1] + [ex[|ex| - 1]];
    }
  }

  /** Every exploded row has at least one component label, and none is empty. */
  lemma ExplodedRowsHaveComponents(records: seq<BugRecord>, e: ExplodedRow)
    requires e in Explode(records)
    ensures e.components != [] && forall c :: c in e.components ==> c != ""
  {
    ConcatSpec(records, ExplodeRecord, e);
    var i :| 0 <= i < |records| && e in ExplodeRecord(records[i]);
  }

  /** The projects a row names: none without a project cell, else the pieces of the cell. */
  function RecordProjects(r: BugRecord): seq<string> {
    match r.project
    case Null => []
    case Text(s) => ProjectPieces(s)
  }

  lemma ExplodeRecordProject(r: BugRecord, e: ExplodedRow)
    requires e in ExplodeRecord(r)
    ensures e.project in RecordProjects(r)
  {
    var rows := ExplodeRecord(r);
    var j :| 0 <= j < |rows| && rows[j] == e;
  }

  lemma ExplodeRecordHas(r: BugRecord, name: string)
    requires name in RecordProjects(r)
    ensures exists e :: e in ExplodeRecord(r) && e.project == name
  {
    var pieces := RecordProjects(r);
    var j :| 0 <= j < |pieces| && pieces[j] == name;
    assert ExplodeRecord(r)[j].project == name;
  }

  /** A project occurs in the exploded rows exactly when some row names it. */
  lemma ExplodedProjects(records: seq<BugRecord>, name: string)
    ensures name in Concat(Explode(records), ProjectOf)
        <==> exists i :: 0 <= i < |records| && name in RecordProjects(records[i])
  {
    var ex := Explode(records);
    ConcatSpec(ex, ProjectOf, name);
    if name in Concat(ex, ProjectOf) {
      var k :| 0 <= k < |ex| && name in ProjectOf(ex[k]);
      ConcatSpec(records, ExplodeRecord, ex[k]);
      var i :| 0 <= i < |records| && ex[k] in ExplodeRecord(records[i]);
      ExplodeRecordProject(records[i], ex[k]);
    }
    forall i | 0 <= i < |records| && name in RecordProjects(records[i])
      ensures name in Concat(ex, ProjectOf)
    {
      ExplodeRecordHas(records[i], name);
      var e :| e in ExplodeRecord(records[i]) && e.project == name;
      ConcatSpec(records, ExplodeRecord, e);
      var k :| 0 <= k < |ex| && ex[k] == e;
      assert name in ProjectOf(ex[k]);
    }
  }

  /** The first three of the sorted labels, joined by `", "`. */
  function Preview(components: seq<string>): string {
    var sorted := SortBy(components, NameKey, false);
    Join(", ", if |sorted| <= 3 then sorted else sorted[..3])
  }

  /** One entry of the project list; the check-box variable is left out. */
  datatype ProjectInfo = ProjectInfo(name: string, reportCount: nat, componentCount: nat, preview: string)

  function InfoOf(ex: seq<ExplodedRow>, name: string): ProjectInfo {
    var g := Group(ex, name);
    var components := Unique(Concat(g, ComponentsOfRow));
    ProjectInfo(name, |g|, |components|, Preview(components))
  }

  /** The keys the loop keeps: every key but `''`, in order. */
  function Named(keys: seq<string>): (r: seq<string>)
    ensures forall x :: x in r <==> x in keys && x != ""
  {
    if keys == [] then []
    else Named(keys[..|keys| - 1]) + (if keys[|keys| - 1] == "" then [] else [keys[|keys| - 1]])
  }

  function InfoList(ex: seq<ExplodedRow>, names: seq<string>): (r: seq<ProjectInfo>)
    ensures |r| == |names|
    ensures forall k :: 0 <= k < |r| ==> r[k] == InfoOf(ex, names[k])
  {
    seq(|names|, k requires 0 <= k < |names| => InfoOf(ex, names[k]))
  }

  lemma NamedStep(keys: seq<string>, i: nat)
    requires i < |keys|
    ensures Named(keys[..i + 1]) == Named(keys[..i]) + (if keys[i] == "" then [] else [keys[i]])
  {
    assert keys[..i + 1][..i] == keys[..i];
  }

  lemma InfoListAppend(ex: seq<ExplodedRow>, names: seq<string>, name: string)
    ensures InfoList(ex, names + [name]) == InfoList(ex, names) + [InfoOf(ex, name)]
  {
  }

  /** The project list before it is sorted: one entry per non-empty group key, in key order. */
  function ProjectsData(records: seq<BugRecord>): seq<ProjectInfo> {
    var ex := Explode(records);
    InfoList(ex, Named(GroupKeys(ex)))
  }


  // Properties of the project list

  /** Every project some row names, and no other, gets an entry, except the empty name. */
  lemma ProjectsListed(records: seq<BugRecord>, name: string)
    ensures (exists j :: 0 <= j < |ProjectsData(records)| && ProjectsData(records)[j].name == name)
        <==> name != "" && exists i :: 0 <= i < |records| && name in RecordProjects(records[i])
  {
    ListedNames(records, name);
    DataNames(records, name);
  }

  /** The names kept are the non-empty projects some row names. */
  lemma ListedNames(records: seq<BugRecord>, name: string)
    ensures name in Named(GroupKeys(Explode(records)))
        <==> name != "" && exists i :: 0 <= i < |records| && name in RecordProjects(records[i])
  {
    var all := Concat(Explode(records), ProjectOf);
    SortByMembers(all, NameKey, false, name);
    ExplodedProjects(records, name);
  }

  /** The entries carry exactly the names kept. */
  lemma DataNames(records: seq<BugRecord>, name: string)
    ensures (exists j :: 0 <= j < |ProjectsData(records)| && ProjectsData(records)[j].name == name)
        <==> name in Named(GroupKeys(Explode(records)))
  {
    var names := Named(GroupKeys(Explode(records)));
    var data := ProjectsData(records);
    if name in names {
      var j :| 0 <= j < |names| && names[j] == name;
      assert data[j].name == name;
    }
  }

  /** The entries come in strictly ascending order of name: sorted and without repeats. */
  lemma ProjectsInNameOrder(records: seq<BugRecord>, i: nat, j: nat)
    requires i < j < |ProjectsData(records)|
    ensures LexLe(ProjectsData(records)[i].name, ProjectsData(records)[j].name)
    ensures ProjectsData(records)[i].name != ProjectsData(records)[j].name
  {
    var ex := Explode(records);
    var sorted := SortBy(Concat(ex, ProjectOf), NameKey, false);
    UniqueKeepsSorted(sorted);
    NamedKeepsOrder(Unique(sorted));
    var names := Named(GroupKeys(ex));
    assert InOrder(NameKey(names[i]), NameKey(names[j]), false);
  }

  /** Each entry counts the exploded rows of its project, at least one, and their distinct labels, at least one. */
  lemma ProjectCounts(records: seq<BugRecord>, j: nat)
    requires j < |ProjectsData(records)|
    ensures var g := Group(Explode(records), ProjectsData(records)[j].name);
            && ProjectsData(records)[j].reportCount == |g| >= 1
            && ProjectsData(records)[j].componentCount == |set c | c in Concat(g, ComponentsOfRow)| >= 1
  {
    var ex := Explode(records);
    var names := Named(GroupKeys(ex));
    var name := names[j];
    assert ProjectsData(records)[j] == InfoOf(ex, name);
    GroupKeyHasRow(ex, name);
    var k :| 0 <= k < |ex| && ex[k].project == name;
    ExplodedRowsHaveComponents(records, ex[k]);
    InfoCounts(ex, name, ex[k]);
  }

  lemma GroupKeyHasRow(ex: seq<ExplodedRow>, name: string)
    requires name in GroupKeys(ex)
    ensures exists k :: 0 <= k < |ex| && ex[k].project == name
  {
    var all := Concat(ex, ProjectOf);
    assert name in multiset(SortBy(all, NameKey, false));
    ConcatSpec(ex, ProjectOf, name);
    var k :| 0 <= k < |ex| && name in ProjectOf(ex[k]);
  }

  lemma InfoCounts(ex: seq<ExplodedRow>, name: string, e: ExplodedRow)
    requires e in ex && e.project == name && e.components != []
    ensures var g := Group(ex, name);
            && InfoOf(ex, name).reportCount == |g| >= 1
            && InfoOf(ex, name).componentCount == |set c | c in Concat(g, ComponentsOfRow)| >= 1
  {
    var g := Group(ex, name);
    assert e in g;
    ConcatSpec(g, ComponentsOfRow, e.components[0]);
    var labels := Concat(g, ComponentsOfRow);
    var u := Unique(labels);
    DistinctCard(u);
    assert (set c | c in u) == (set c | c in labels);
    assert e.components[0] in (set c | c in labels);
  }

  /** A distinct sequence has as many elements as its set. */
  lemma {:induction false} DistinctCard(u: seq<string>)
    requires Distinct(u)
    ensures |u| == |set c | c in u|
  {
    if u != [] {
      var init := u[..|u| - 1];
      assert Distinct(init);
      DistinctCard(init);
      assert u == init + [u[|u| - 1]];
      assert (set c | c in u) == (set c | c in init) + {u[|u| - 1]};
    }
  }

  lemma UniqueKeepsSorted(xs: seq<string>)
    requires Sorted(xs, NameKey, false)
    ensures Sorted(Unique(xs), NameKey, false)
  {
    if xs != [] {
      var init := xs[..|xs| - 1];
      var last := xs[|xs| - 1];
      assert Sorted(init, NameKey, false);
      UniqueKeepsSorted(init);
      forall y | y in Unique(init) ensures InOrder(NameKey(y), NameKey(last), false) {
        var k :| 0 <= k < |init| && init[k] == y;
      }
      SortedSnoc(Unique(init), last, NameKey, false);
    }
  }

  lemma NamedKeepsOrder(keys: seq<string>)
    requires Sorted(keys, NameKey, false) && Distinct(keys)
    ensures Sorted(Named(keys), NameKey, false) && Distinct(Named(keys))
  {
    if keys != [] {
      var init := keys[..|keys| - 1];
      var last := keys[|keys| - 1];
      assert Sorted(init, NameKey, false) && Distinct(init);
      NamedKeepsOrder(init);
      if last != "" {
        forall y | y in Named(init) ensures InOrder(NameKey(y), NameKey(last), false) {
          var k :| 0 <= k < |init| && init[k] == y;
        }
        SortedSnoc(Named(init), last, NameKey, false);
        DistinctSnoc(Named(init), last);
      }
    }
  }

  // ---------------------------------------------------------------------
  // Sorting the project list
  // ---------------------------------------------------------------------

  /** The three values the sort radio buttons give `sort_by_var`. */
  datatype SortField = ReportCount | ComponentCount | Name

  /** The field a key string names, and `None` for any other key; the radio buttons give only these three. */
  function ParseSortField(key: string): Option<SortField> {
    if key == "report_count" then Some(ReportCount)
    else if key == "component_count" then Some(ComponentCount)
    else if key == "name" then Some(Name)
    else None
  }

  function ReportKey(p: ProjectInfo): Key {
    IntKey(p.reportCount)
  }

  function ComponentKey(p: ProjectInfo): Key {
    IntKey(p.componentCount)
  }

  function ProjectNameKey(p: ProjectInfo): Key {
    StrKey(p.name)
  }

  function ProjectKey(f: SortField): ProjectInfo -> Key {
    match f
    case ReportCount => ReportKey
    case ComponentCount => ComponentKey
    case Name => ProjectNameKey
  }

  /**
   * `projects_data.sort(key=lambda x: x[key], reverse=order == "desc")`. An
   * unknown key raises before anything moves, so the list stays as it was.
   */
  function SortProjects(projects: seq<ProjectInfo>, key: string, order: string): seq<ProjectInfo> {
    match ParseSortField(key)
    case None => projects
    case Some(f) => SortBy(projects, ProjectKey(f), order == "desc")
  }


  /** Sorting reorders the list and neither adds nor drops an entry. */
  lemma SortProjectsIsPermutation(projects: seq<ProjectInfo>, key: string, order: string)
    ensures multiset(SortProjects(projects, key, order)) == multiset(projects)
  {
  }

  /** With a known key, the list is in descending key order exactly when the order is "desc", ascending otherwise. */
  lemma SortProjectsDirection(projects: seq<ProjectInfo>, key: string, order: string, i: nat, j: nat)
    requires ParseSortField(key).Some? && i < j < |projects|
    ensures var s := SortProjects(projects, key, order);
            var k := ProjectKey(ParseSortField(key).value);
            && (order == "desc" ==> KeyLe(k(s[j]), k(s[i])))
            && (order != "desc" ==> KeyLe(k(s[i]), k(s[j])))
  {
    var s := SortProjects(projects, key, order);
    var k := ProjectKey(ParseSortField(key).value);
    assert InOrder(k(s[i]), k(s[j]), order == "desc");
  }

  /** Projects with equal keys keep the order the list had. */
  lemma SortProjectsIsStable(projects: seq<ProjectInfo>, key: string, order: string, k: Key)
    requires ParseSortField(key).Some?
    ensures WithKey(SortProjects(projects, key, order), ProjectKey(ParseSortField(key).value), k)
         == WithKey(projects, ProjectKey(ParseSortField(key).value), k)
  {
    SortByStable(projects, ProjectKey(ParseSortField(key).value), order == "desc", k);
  }

  // ---------------------------------------------------------------------
  // The model list
  // ---------------------------------------------------------------------

  /** The model preferred as the default. */
  const PreferredModel := "llama3.1:8b"

  /** The model used when the selection is not a listed display name. */
  const FallbackModel := "llama3:8b"

  /** One entry of the server's model list: `model_obj.get('model')` and its size in bytes (0 when absent). */
  datatype ListedModel = ListedModel(model: Option<string>, size: int)

  /** The size text shown in a display name; the gigabyte formatting is not modelled. */
  type SizeText = int -> string

  /** The note shown after the two described models. */
  function Description(name: string): string {
    if name == "llama3.1:8b" then " (Preferred for fast responses)"
    else if name == "llama3.3:70b-instruct-q2_K" then " (Preferred for accurate responses)"
    else ""
  }

  function DisplayName(name: string, size: int, sizeText: SizeText): string {
    name + " (" + sizeText(size) + ")" + Description(name)
  }

  /** Models without a name, or with an empty one, are skipped. */
  predicate HasName(m: ListedModel) {
    m.model.Some? && m.model.value != ""
  }

  function DisplayOf(m: ListedModel, sizeText: SizeText): string
    requires HasName(m)
  {
    DisplayName(m.model.value, m.size, sizeText)
  }

  /** The display names of the named models, in list order. */
  function DisplayNames(models: seq<ListedModel>, sizeText: SizeText): seq<string> {
    if models == [] then []
    else
      var last := models[|models| - 1];
      DisplayNames(models[..|models| - 1], sizeText) + (if HasName(last) then [DisplayOf(last, sizeText)] else [])
  }

  /** `model_map`: each display name to its model name, a later model overwriting an earlier one. */
  function ModelMap(models: seq<ListedModel>, sizeText: SizeText): map<string, string> {
    if models == [] then map[]
    else
      var last := models[|models| - 1];
      var m := ModelMap(models[..|models| - 1], sizeText);
      if HasName(last) then m[DisplayOf(last, sizeText) := last.model.value] else m
  }

  /** The display name of the last model named like the preferred one, if any. */
  function PreferredDisplay(models: seq<ListedModel>, sizeText: SizeText): Option<string> {
    if models == [] then None
    else
      var last := models[|models| - 1];
      if HasName(last) && last.model.value == PreferredModel then Some(DisplayOf(last, sizeText))
      else PreferredDisplay(models[..|models| - 1], sizeText)
  }

  /** The selection after loading: the preferred model, else the first sorted display name, else unchanged. */
  function DefaultChoice(models: seq<ListedModel>, sizeText: SizeText, current: string): string {
    match PreferredDisplay(models, sizeText)
    case Some(d) => d
    case None =>
      var sorted := SortBy(DisplayNames(models, sizeText), NameKey, false);
      if sorted != [] then sorted[0] else current
  }

  /** `model_map.get(selection, 'llama3:8b')`. */
  function ResolveModel(modelMap: map<string, string>, selection: string): string {
    if selection in modelMap then modelMap[selection] else FallbackModel
  }

  // Properties of the model list

  lemma DisplayNamesSpec(models: seq<ListedModel>, sizeText: SizeText, d: string)
    ensures d in DisplayNames(models, sizeText)
        <==> exists k :: 0 <= k < |models| && HasName(models[k]) && DisplayOf(models[k], sizeText) == d
  {
    if d in DisplayNames(models, sizeText) {
      DisplayNamesListed(models, sizeText, d);
    } else {
      forall k | 0 <= k < |models| && HasName(models[k]) ensures DisplayOf(models[k], sizeText) != d {
        DisplayNamesShown(models, sizeText, k);
      }
    }
  }

  /** A listed display name is the display name of some named model. */
  lemma {:induction false} DisplayNamesListed(models: seq<ListedModel>, sizeText: SizeText, d: string)
    requires d in DisplayNames(models, sizeText)
    ensures exists k :: 0 <= k < |models| && HasName(models[k]) && DisplayOf(models[k], sizeText) == d
  {
    var init := models[..|models| - 1];
    var last := models[|models| - 1];
    DisplayNamesLast(models, sizeText, d);
    if d in DisplayNames(init, sizeText) {
      DisplayNamesListed(init, sizeText, d);
      var k :| 0 <= k < |init| && HasName(init[k]) && DisplayOf(init[k], sizeText) == d;
      assert models[k] == init[k];
    } else {
      assert HasName(last) && DisplayOf(last, sizeText) == d;
    }
  }

  /** Every named model's display name is listed. */
  lemma {:induction false} DisplayNamesShown(models: seq<ListedModel>, sizeText: SizeText, k: nat)
    requires k < |models| && HasName(models[k])
    ensures DisplayOf(models[k], sizeText) in DisplayNames(models, sizeText)
  {
    var init := models[..|models| - 1];
    var d := DisplayOf(models[k], sizeText);
    DisplayNamesLast(models, sizeText, d);
    if k < |init| {
      assert models[k] == init[k];
      DisplayNamesShown(init, sizeText, k);
    }
  }

  lemma DisplayNamesLast(models: seq<ListedModel>, sizeText: SizeText, d: string)
    requires models != []
    ensures d in DisplayNames(models, sizeText) <==>
              d in DisplayNames(models[..|models| - 1], sizeText)
              || (HasName(models[|models| - 1]) && DisplayOf(models[|models| - 1], sizeText) == d)
  {
  }

  /**
   * The map has exactly the display names as keys, and maps each to the name
   * of a listed model that has that display name.
   */
  lemma {:induction false} ModelMapSpec(models: seq<ListedModel>, sizeText: SizeText, d: string)
    ensures d in ModelMap(models, sizeText) <==> d in DisplayNames(models, sizeText)
    ensures d in ModelMap(models, sizeText) ==>
              exists k :: 0 <= k < |models| && HasName(models[k]) && DisplayOf(models[k], sizeText) == d
                          && models[k].model.value == ModelMap(models, sizeText)[d]
  {
    if models != [] {
      var init := models[..|models| - 1];
      ModelMapSpec(init, sizeText, d);
      var last := models[|models| - 1];
      if d in ModelMap(models, sizeText) && !(HasName(last) && DisplayOf(last, sizeText) == d) {
        var k :| 0 <= k < |init| && HasName(init[k]) && DisplayOf(init[k], sizeText) == d
                 && init[k].model.value == ModelMap(init, sizeText)[d];
        assert models[k] == init[k];
      }
    }
  }

  lemma {:induction false} PreferredDisplaySpec(models: seq<ListedModel>, sizeText: SizeText)
    ensures PreferredDisplay(models, sizeText).Some?
        <==> exists k :: 0 <= k < |models| && HasName(models[k]) && models[k].model.value == PreferredModel
    ensures PreferredDisplay(models, sizeText).Some? ==>
              exists k :: 0 <= k < |models| && HasName(models[k]) && models[k].model.value == PreferredModel
                          && DisplayOf(models[k], sizeText) == PreferredDisplay(models, sizeText).value
  {
    if models != [] {
      var init := models[..|models| - 1];
      PreferredDisplaySpec(init, sizeText);
      var last := models[|models| - 1];
      if !(HasName(last) && last.model.value == PreferredModel) {
        if PreferredDisplay(init, sizeText).Some? {
          var k :| 0 <= k < |init| && HasName(init[k]) && init[k].model.value == PreferredModel
                   && DisplayOf(init[k], sizeText) == PreferredDisplay(init, sizeText).value;
          assert models[k] == init[k];
        }
        forall k | 0 <= k < |init| && HasName(models[k]) && models[k].model.value == PreferredModel
          ensures PreferredDisplay(init, sizeText).Some?
        {
          assert models[k] == init[k];
        }
      }
    }
  }

  /** Once a named model is listed, the default selection is a key of the map, so it never falls back to llama3:8b unasked. */
  lemma DefaultIsListed(models: seq<ListedModel>, sizeText: SizeText, current: string)
    requires exists k :: 0 <= k < |models| && HasName(models[k])
    ensures DefaultChoice(models, sizeText, current) in ModelMap(models, sizeText)
  {
    var choice := DefaultChoice(models, sizeText, current);
    var k :| 0 <= k < |models| && HasName(models[k]);
    DisplayNamesSpec(models, sizeText, DisplayOf(models[k], sizeText));
    PreferredDisplaySpec(models, sizeText);
    if PreferredDisplay(models, sizeText).Some? {
      var j :| 0 <= j < |models| && HasName(models[j]) && models[j].model.value == PreferredModel
               && DisplayOf(models[j], sizeText) == choice;
      DisplayNamesSpec(models, sizeText, choice);
    } else {
      var names := DisplayNames(models, sizeText);
      var sorted := SortBy(names, NameKey, false);
      assert sorted[0] in multiset(names);
    }
    ModelMapSpec(models, sizeText, choice);
  }

  /**
   * When llama3.1:8b is listed, the default resolves to it, given that no
   * model with another name shows the same display name.
   */
  lemma PreferredIsDefault(models: seq<ListedModel>, sizeText: SizeText, current: string)
    requires exists k :: 0 <= k < |models| && HasName(models[k]) && models[k].model.value == PreferredModel
    requires forall i, j ::
               0 <= i < |models| && 0 <= j < |models| && HasName(models[i]) && HasName(models[j]) &&
               DisplayOf(models[i], sizeText) == DisplayOf(models[j], sizeText) ==>
                 models[i].model == models[j].model
    ensures ResolveModel(ModelMap(models, sizeText), DefaultChoice(models, sizeText, current)) == PreferredModel
  {
    PreferredDisplaySpec(models, sizeText);
    var d := PreferredDisplay(models, sizeText).value;
    var j :| 0 <= j < |models| && HasName(models[j]) && models[j].model.value == PreferredModel
             && DisplayOf(models[j], sizeText) == d;
    DisplayNamesSpec(models, sizeText, d);
    ModelMapSpec(models, sizeText, d);
  }

  /** With no named model the map is empty and every selection resolves to llama3:8b. */
  lemma {:induction false} NoNamedModelFallsBack(models: seq<ListedModel>, sizeText: SizeText, selection: string)
    requires forall k :: 0 <= k < |models| ==> !HasName(models[k])
    ensures ModelMap(models, sizeText) == map[]
    ensures ResolveModel(ModelMap(models, sizeText), selection) == FallbackModel
  {
    if models != [] {
      var init := models[..|models| - 1];
      assert forall k :: 0 <= k < |init| ==> init[k] == models[k];
      NoNamedModelFallsBack(init, sizeText, selection);
    }
  }

  // ---------------------------------------------------------------------
  // The window's state
  // ---------------------------------------------------------------------

  /**
   * The window, with its methods modelled as if gui.py imported `os` and
   * only functions preprocess.py defines; as written, importing gui.py
   * fails, and so would `__init__` and `select_csv`.
   */
  class BugReportGui {
    /** The project list shown with a check box per project. */
    var projectsData: seq<ProjectInfo>
    /** `sort_by_var` and `sort_order_var`. */
    var sortBy: string
    var sortOrder: string
    /** `model_map`, the drop-down's display names and the selected display name. */
    var modelMap: map<string, string>
    var modelChoices: seq<string>
    var selectedModel: string

    /**
     * `__init__`: an empty project list, the sort controls at "report_count"
     * and "desc", and the model drop-down filled by `load_ollama_models` from
     * the list the server returns.
     */
    constructor(models: seq<ListedModel>, sizeText: SizeText)
      ensures projectsData == []
      ensures sortBy == "report_count" && sortOrder == "desc"
      ensures modelMap == ModelMap(models, sizeText)
      ensures modelChoices == if models == [] then [] else SortBy(DisplayNames(models, sizeText), NameKey, false)
      ensures selectedModel == if models == [] then "" else DefaultChoice(models, sizeText, "")
      ensures (exists k :: 0 <= k < |models| && HasName(models[k])) ==> selectedModel in modelMap
    {
      projectsData := [];
      sortBy := "report_count";
      sortOrder := "desc";
      modelMap := map[];
      modelChoices := [];
      selectedModel := "";
      new;
      LoadOllamaModels(models, sizeText);
      if exists k :: 0 <= k < |models| && HasName(models[k]) {
        DefaultIsListed(models, sizeText, "");
      }
    }

    /** The model a run uses: the model name of the selection, or llama3:8b when it is not in the map. */
    function ActualModelName(): (name: string)
      reads this
      ensures selectedModel !in modelMap ==> name == FallbackModel
      ensures selectedModel in modelMap ==> name in modelMap.Values
    {
      ResolveModel(modelMap, selectedModel)
    }

    /**
     * `load_ollama_models` over the list the server returns: the map is
     * rebuilt; an empty list changes nothing else; otherwise the drop-down gets
     * the sorted display names and the selection its default.
     */
    method LoadOllamaModels(models: seq<ListedModel>, sizeText: SizeText)
      modifies this
      ensures modelMap == ModelMap(models, sizeText)
      ensures models == [] ==> modelChoices == old(modelChoices) && selectedModel == old(selectedModel)
      ensures models != [] ==> modelChoices == SortBy(DisplayNames(models, sizeText), NameKey, false)
      ensures models != [] ==> selectedModel == DefaultChoice(models, sizeText, old(selectedModel))
      ensures projectsData == old(projectsData) && sortBy == old(sortBy) && sortOrder == old(sortOrder)
    {
      modelMap := map[];
      if models == [] {
        return;
      }
      var displayNames: seq<string> := [];
      var defaultDisplay: Option<string> := None;
      for i := 0 to |models|
        invariant modelMap == ModelMap(models[..i], sizeText)
        invariant displayNames == DisplayNames(models[..i], sizeText)
        invariant defaultDisplay == PreferredDisplay(models[..i], sizeText)
        invariant projectsData == old(projectsData) && sortBy == old(sortBy) && sortOrder == old(sortOrder)
        invariant modelChoices == old(modelChoices) && selectedModel == old(selectedModel)
      {
        assert models[..i + 1][..i] == models[..i];
        var m := models[i];
        if m.model.None? || m.model.value == "" {
          continue;
        }
        var modelName := m.model.value;
        var displayName := modelName + " (" + sizeText(m.size) + ")" + Description(modelName);
        modelMap := modelMap[displayName := modelName];
        displayNames := displayNames + [displayName];
        if modelName == PreferredModel {
          defaultDisplay := Some(displayName);
        }
      }
      assert models[..|models|] == models;
      modelChoices := SortBy(displayNames, NameKey, false);
      if defaultDisplay.Some? {
        selectedModel := defaultDisplay.value;
      } else if modelChoices != [] {
        selectedModel := modelChoices[0];
      }
    }

    /**
     * `sort_and_redisplay_projects`: sorts the list in place by the chosen
     * field, descending exactly when the order is "desc"; `ok` is false where
     * Python raises, that is where the key is unknown and the list is not
     * empty (an empty list never looks its key up).
     */
    method SortAndRedisplayProjects() returns (ok: bool)
      modifies this
      ensures ok <==> ParseSortField(sortBy).Some? || old(projectsData) == []
      ensures projectsData == SortProjects(old(projectsData), sortBy, sortOrder)
      ensures sortBy == old(sortBy) && sortOrder == old(sortOrder)
    {
      var field := ParseSortField(sortBy);
      if field.None? {
        return projectsData == [];
      }
      var isReverse := sortOrder == "desc";
      projectsData := SortBy(projectsData, ProjectKey(field.value), isReverse);
      ok := true;
    }

    /**
     * A click on one of the sort radio buttons: the button's variable takes
     * the button's value and the list is sorted again.
     */
    method SetSort(field: string, order: string) returns (ok: bool)
      modifies this
      ensures sortBy == field && sortOrder == order
      ensures projectsData == SortProjects(old(projectsData), field, order)
      ensures ok <==> ParseSortField(field).Some? || old(projectsData) == []
    {
      sortBy := field;
      sortOrder := order;
      ok := SortAndRedisplayProjects();
    }

    /**
     * `load_projects_and_components` over the rows the CSV file holds:
     * nothing happens without a file and both column names; otherwise the list
     * gets one entry per non-empty project, in group-key order, and is then
     * sorted as the sort controls say.
     */
    method LoadProjectsAndComponents(csvPath: string, projectCol: string, componentCol: string,
                                     records: seq<BugRecord>)
      modifies this
      ensures csvPath == "" || projectCol == "" || componentCol == "" ==> projectsData == old(projectsData)
      ensures csvPath != "" && projectCol != "" && componentCol != "" ==>
                projectsData == SortProjects(ProjectsData(records), sortBy, sortOrder)
      ensures sortBy == old(sortBy) && sortOrder == old(sortOrder)
    {
      if csvPath == "" || projectCol == "" || componentCol == "" {
        return;
      }
      var ex := Explode(records);
      var keys := GroupKeys(ex);
      projectsData := [];
      for i := 0 to |keys|
        invariant projectsData == InfoList(ex, Named(keys[..i]))
        invariant sortBy == old(sortBy) && sortOrder == old(sortOrder)
      {
        NamedStep(keys, i);
        var name := keys[i];
        if name == "" {
          continue;
        }
        InfoListAppend(ex, Named(keys[..i]), name);
        projectsData := projectsData + [InfoOf(ex, name)];
      }
      assert keys[..|keys|] == keys;
      var _ := SortAndRedisplayProjects();
    }
  }

  // ---------------------------------------------------------------------
  // The number of summary tasks
  // ---------------------------------------------------------------------

  /** A row of the selected reports: its project and its list of component labels. */
  datatype TaskRow = TaskRow(project: string, components: seq<string>)

  function ProjectSet(r: TaskRow): set<string> {
    {r.project}
  }

  /**
   * The (component, project) pairs of one row after `explode`: one per label,
   * and a single pair with a missing component for an empty list.
   */
  function RowPairs(r: TaskRow): set<(Option<string>, string)> {
    if r.components == [] then {(None, r.project)}
    else set c | c in r.components :: (Some(c), r.project)
  }

  /** `total_summary_tasks`: one per distinct project plus one per distinct (component, project) pair. */
  function TotalSummaryTasks(rows: seq<TaskRow>): nat {
    |UnionOf(rows, ProjectSet)| + |UnionOf(rows, RowPairs)|
  }

  /** Every project has at least one pair of its own, so there are at least two tasks per project. */
  lemma AtLeastTwoTasksPerProject(rows: seq<TaskRow>)
    ensures TotalSummaryTasks(rows) >= 2 * |UnionOf(rows, ProjectSet)|
  {
    var projects := UnionOf(rows, ProjectSet);
    var pairs := UnionOf(rows, RowPairs);
    forall p | p in projects ensures exists x :: x in pairs && x.1 == p {
      UnionOfSpec(rows, ProjectSet, p);
      var k :| 0 <= k < |rows| && p in ProjectSet(rows[k]);
      var x := if rows[k].components == [] then (None, p) else (Some(rows[k].components[0]), p);
      assert x in RowPairs(rows[k]);
      UnionOfSpec(rows, RowPairs, x);
    }
    CoveredCard(pairs, projects);
  }

  /** A set each of whose elements is the project of some pair is no larger than the set of pairs. */
  lemma {:induction false} CoveredCard(pairs: set<(Option<string>, string)>, projects: set<string>)
    requires forall p :: p in projects ==> exists x :: x in pairs && x.1 == p
    ensures |projects| <= |pairs|
    decreases |pairs|
  {
    if pairs != {} {
      var x :| x in pairs;
      var rest := pairs - {x};
      var others := projects - {x.1};
      forall p | p in others ensures exists y :: y in rest && y.1 == p {
        var y :| y in pairs && y.1 == p;
        assert y != x;
      }
      CoveredCard(rest, others);
    } else {
      assert projects == {};
    }
  }
}
