/**
 * The ACS table parsers: the variable-metadata parser (`parse_md`), the
 * observation-table parser (`parse_acs`), the year stacker
 * (`combine_acs_years`) and the column check (`verify_acs_data`).
 * Tables are sequences of rows; a cell that pandas would hold as NaN is `None`.
 */
module AcsHelpers {
  import opened Wrappers
  import opened Strings
  import opened Json

  /** The exceptions the parsers let escape, by kind. */
  datatype AcsError =
    | MissingKey(key: string)                         // KeyError
    | NotAMapping(what: string)                       // TypeError / AttributeError on a non-dict
    | LabelNotText(code: string)                      // AttributeError: the label is NaN or not a str
    | EmptyTable                                      // IndexError from `iloc[0]`
    | NotAnInteger(column: string, cell: Option<string>) // ValueError / TypeError from `astype(int)`
    | OutOfRange(column: string, value: int)          // OverflowError: does not fit in int64
    | RepeatedColumn(name: string)                    // AttributeError: a repeated column selects a frame, which has no `.str`

  // ---------------------------------------------------------------------
  // parse_md
  // ---------------------------------------------------------------------

  const LabelSeparator: string := "!!"
  const DroppedFields: seq<string> := ["label", "concept", "predicateType", "group", "limit", "predicateOnly"]
  const EstimateKind: string := "Estimate"

  /** One entry of `md['variables']`: its code, its fields, and its label. */
  datatype Variable = Variable(code: string, fields: seq<(string, Value)>, labelText: string)

  /** A row of the frame while the `desc_i` columns are being added. */
  datatype VarRow = VarRow(v: Variable, descs: seq<Option<string>>)

  /** A row of the parsed metadata: `column` first, the kept fields, then `desc_1`, `desc_2`, ... */
  datatype MdRow = MdRow(column: string, extras: seq<(string, Value)>, descs: seq<Option<string>>)

  /** The parsed metadata: its rows carry the columns `desc_1` .. `desc_<descCount>`. */
  datatype MdTable = MdTable(descCount: nat, rows: seq<MdRow>)

  /** Every entry of `variables` is a dict with a string `label`. */
  predicate LabelledEntries(entries: seq<(string, Value)>) {
    forall k :: 0 <= k < |entries| ==>
      entries[k].1.JObj? && Lookup(entries[k].1.fields, "label").Some?
      && Lookup(entries[k].1.fields, "label").value.JStr?
  }

  /** What `parse_md` needs of its argument before any label is split. */
  predicate WellFormedMetadata(md: Value) {
    && md.JObj?
    && Lookup(md.fields, "variables").Some?
    && Lookup(md.fields, "variables").value.JObj?
    && |Lookup(md.fields, "variables").value.fields| > 0
    && LabelledEntries(Lookup(md.fields, "variables").value.fields)
  }

  function ReadVariables(entries: seq<(string, Value)>): (r: Result<seq<Variable>, AcsError>)
    ensures r.Success? <==> LabelledEntries(entries)
    ensures r.Success? ==> |r.value| == |entries|
    ensures r.Success? ==> forall k :: 0 <= k < |entries| ==>
      r.value[k] == Variable(entries[k].0, entries[k].1.fields, Lookup(entries[k].1.fields, "label").value.s)
  {
    if entries == [] then Success([])
    else
      var code := entries[0].0;
      var rest := ReadVariables(entries[1..]);
      assert forall k :: 1 <= k < |entries| ==> entries[k] == entries[1..][k - 1];
      match entries[0].1
      case JObj(fields) =>
        var found: Option<Value> := Lookup(fields, "label");
        if found.None? || !found.value.JStr? then Failure(LabelNotText(code))
        else if rest.Failure? then Failure(rest.error)
        else Success([Variable(code, fields, found.value.s)] + rest.value)
      case _ => Failure(NotAMapping(code))
  }

  /**
   * `pd.DataFrame.from_dict(md['variables'], orient='index')` with the index
   * reset into `column`, and the `label` column read: one row per code.
   */
  function Variables(md: Value): (r: Result<seq<Variable>, AcsError>)
    ensures r.Success? <==> WellFormedMetadata(md)
    ensures r.Success? ==> |r.value| > 0
  {
    if !md.JObj? then Failure(NotAMapping("metadata"))
    else
      match Lookup(md.fields, "variables")
      case None => Failure(MissingKey("variables"))
      case Some(vars) =>
        if !vars.JObj? then Failure(NotAMapping("variables"))
        else if |vars.fields| == 0 then Failure(MissingKey("label"))
        else ReadVariables(vars.fields)
  }

  /** The number of `!!` separators in each label, row by row. */
  function Seps(vars: seq<Variable>): (r: seq<nat>)
    ensures |r| == |vars|
  {
    seq(|vars|, k requires 0 <= k < |vars| => Count(vars[k].labelText, LabelSeparator))
  }

  lemma SepsAt(vars: seq<Variable>)
    ensures forall k :: 0 <= k < |vars| ==> Seps(vars)[k] == Count(vars[k].labelText, LabelSeparator)
  {
  }

  /** The least of the counts. */
  function MinOf(xs: seq<nat>): nat
    requires |xs| > 0
  {
    if |xs| == 1 then xs[0]
    else
      var m := MinOf(xs[1..]);
      if xs[0] <= m then xs[0] else m
  }

  /** The greatest of the counts. */
  function MaxOf(xs: seq<nat>): nat
    requires |xs| > 0
  {
    if |xs| == 1 then xs[0]
    else
      var m := MaxOf(xs[1..]);
      if xs[0] >= m then xs[0] else m
  }

  /** `MinOf` is a lower bound that occurs, and `MaxOf` an upper bound that occurs. */
  lemma {:induction false} MinMaxOf(xs: seq<nat>)
    requires |xs| > 0
    ensures MinOf(xs) in xs && forall k :: 0 <= k < |xs| ==> MinOf(xs) <= xs[k]
    ensures MaxOf(xs) in xs && forall k :: 0 <= k < |xs| ==> xs[k] <= MaxOf(xs)
  {
    if |xs| > 1 {
      MinMaxOf(xs[1..]);
      assert forall k :: 1 <= k < |xs| ==> xs[k] == xs[1..][k - 1];
      assert MinOf(xs[1..]) in xs && MaxOf(xs[1..]) in xs;
    }
  }

  /** Column `desc_i` of a row: the i-th `!!`-segment of its label, or `None` when it has fewer. */
  function DescValue(text: string, i: nat): Option<string>
    requires i >= 1
  {
    var segments := Split(text, LabelSeparator);
    if |segments| >= i then Some(segments[i - 1]) else None
  }

  /** Columns `desc_lo` .. `desc_(hi-1)` of a row. */
  function DescsFrom(text: string, lo: nat, hi: nat): (r: seq<Option<string>>)
    requires 1 <= lo <= hi
    ensures |r| == hi - lo
  {
    seq(hi - lo, k requires 0 <= k < hi - lo => DescValue(text, lo + k))
  }

  /** The fields left after `drop(columns=drop_cols)`, in their order. */
  function DropFields(fields: seq<(string, Value)>): (r: seq<(string, Value)>)
    ensures |r| <= |fields|
    ensures forall f :: f in r <==> f in fields && f.0 !in DroppedFields
  {
    if fields == [] then []
    else
      var rest := DropFields(fields[1..]);
      assert forall f :: f in fields <==> f == fields[0] || f in fields[1..];
      if fields[0].0 in DroppedFields then rest else [fields[0]] + rest
  }

  /** The output row of a variable once `desc_1` .. `desc_n` exist. */
  function MdRowOf(v: Variable, n: nat): MdRow {
    MdRow(v.code, DropFields(v.fields), DescsFrom(v.labelText, 1, n + 1))
  }

  predicate IsEstimate(row: MdRow) {
    |row.descs| > 0 && row.descs[0] == Some(EstimateKind)
  }

  /** `vars_df[vars_df['desc_1'].isin(['Estimate'])]` */
  function Estimates(rows: seq<MdRow>): (r: seq<MdRow>)
    ensures |r| <= |rows|
    ensures forall x :: x in r <==> x in rows && IsEstimate(x)
  {
    if rows == [] then []
    else
      var rest := Estimates(rows[1..]);
      assert forall x :: x in rows <==> x == rows[0] || x in rows[1..];
      if IsEstimate(rows[0]) then [rows[0]] + rest else rest
  }

  predicate ColumnsSorted(rows: seq<MdRow>) {
    forall i, j :: 0 <= i < j < |rows| ==> LexLe(rows[i].column, rows[j].column)
  }

  predicate AllAtLeast(c: string, rows: seq<MdRow>) {
    forall x :: x in rows ==> LexLe(c, x.column)
  }

  function Insert(x: MdRow, s: seq<MdRow>): (r: seq<MdRow>)
    requires ColumnsSorted(s)
    ensures ColumnsSorted(r)
    ensures multiset(r) == multiset(s) + multiset{x}
  {
    if s == [] then [x]
    else if LexLe(x.column, s[0].column) then
      HeadBelowAll(x.column, s);
      ConsSorted(x, s);
      [x] + s
    else
      LexLeTotal(x.column, s[0].column);
      SortedTail(s);
      var t := Insert(x, s[1..]);
      InsertedAbove(x, s, t);
      ConsSorted(s[0], t);
      assert s == [s[0]] + s[1..];
      [s[0]] + t
  }

  /** A column at most the first one of a sorted list is at most all of them. */
  lemma HeadBelowAll(c: string, s: seq<MdRow>)
    requires ColumnsSorted(s) && s != [] && LexLe(c, s[0].column)
    ensures AllAtLeast(c, s)
  {
    forall y | y in s
      ensures LexLe(c, y.column)
    {
      var j :| 0 <= j < |s| && s[j] == y;
      if j > 0 {
        LexLeTransitive(c, s[0].column, s[j].column);
      }
    }
  }

  /** The tail of a sorted list is sorted, and above its head. */
  lemma SortedTail(s: seq<MdRow>)
    requires ColumnsSorted(s) && s != []
    ensures ColumnsSorted(s[1..]) && AllAtLeast(s[0].column, s[1..])
  {
    forall i, j | 0 <= i < j < |s| - 1
      ensures LexLe(s[1..][i].column, s[1..][j].column)
    {
      assert s[1..][i] == s[i + 1] && s[1..][j] == s[j + 1];
    }
    forall y | y in s[1..]
      ensures LexLe(s[0].column, y.column)
    {
      var j :| 0 <= j < |s[1..]| && s[1..][j] == y;
      assert y == s[j + 1];
    }
  }

  /** A row at most every row of a sorted list can go in front of it. */
  lemma ConsSorted(y: MdRow, t: seq<MdRow>)
    requires ColumnsSorted(t) && AllAtLeast(y.column, t)
    ensures ColumnsSorted([y] + t)
  {
    var r := [y] + t;
    forall i, j | 0 <= i < j < |r|
      ensures LexLe(r[i].column, r[j].column)
    {
      assert r[j] == t[j - 1];
      if i > 0 {
        assert r[i] == t[i - 1];
      } else {
        assert r[j] in t;
      }
    }
  }

  /** Inserting above the head of a sorted list keeps everything above that head. */
  lemma InsertedAbove(x: MdRow, s: seq<MdRow>, t: seq<MdRow>)
    requires s != [] && LexLe(s[0].column, x.column)
    requires AllAtLeast(s[0].column, s[1..])
    requires multiset(t) == multiset(s[1..]) + multiset{x}
    ensures AllAtLeast(s[0].column, t)
  {
    forall y | y in t
      ensures LexLe(s[0].column, y.column)
    {
      assert y in multiset(t);
      if y != x {
        assert y in multiset(s[1..]);
      }
    }
  }

  /** `sort_values('column')`; codes are dict keys, so no two rows tie. */
  function SortByColumn(rows: seq<MdRow>): (r: seq<MdRow>)
    ensures ColumnsSorted(r)
    ensures multiset(r) == multiset(rows)
  {
    if rows == [] then []
    else
      assert rows == [rows[0]] + rows[1..];
      Insert(rows[0], SortByColumn(rows[1..]))
  }

  /** Every variable's output row once `desc_1` .. `desc_n` exist, in dictionary order. */
  function AllRows(vars: seq<Variable>, n: nat): (r: seq<MdRow>)
    ensures |r| == |vars|
  {
    seq(|vars|, k requires 0 <= k < |vars| => MdRowOf(vars[k], n))
  }

  lemma AllRowsAt(vars: seq<Variable>, n: nat)
    ensures forall k :: 0 <= k < |vars| ==> AllRows(vars, n)[k] == MdRowOf(vars[k], n)
  {
  }

  /** The frame built from the variables: fails when no label lacks `!!`. */
  function MetadataOf(vars: seq<Variable>): (r: Result<MdTable, AcsError>)
    requires |vars| > 0
    ensures r.Failure? ==> r.error == MissingKey("desc_1")
    ensures r.Success? ==> r.value.descCount >= 1 && ColumnsSorted(r.value.rows) && |r.value.rows| <= |vars|
    ensures r.Success? ==> forall i :: 0 <= i < |r.value.rows| ==> IsEstimate(r.value.rows[i])
  {
    var seps := Seps(vars);
    if MinOf(seps) != 0 then Failure(MissingKey("desc_1"))
    else
      var n := MaxOf(seps) + 1;
      var kept := Estimates(AllRows(vars, n));
      var rows := SortByColumn(kept);
      assert forall i :: 0 <= i < |rows| ==> rows[i] in multiset(kept);
      assert |rows| == |multiset(kept)|;
      Success(MdTable(n, rows))
  }

  /**
   * `parse_md`: one row per variable, `desc_i` columns for i from the least to
   * the greatest `!!`-count plus one, the bookkeeping fields dropped, only the
   * `Estimate` rows kept, sorted by code.
   */
  function ParseMetadata(md: Value): (r: Result<MdTable, AcsError>)
    ensures r.Success? ==> WellFormedMetadata(md) && ColumnsSorted(r.value.rows)
    ensures r.Success? ==> forall i :: 0 <= i < |r.value.rows| ==> IsEstimate(r.value.rows[i])
  {
    var vars :- Variables(md);
    MetadataOf(vars)
  }

  lemma DescsFromSnoc(text: string, lo: nat, hi: nat)
    requires 1 <= lo <= hi
    ensures DescsFrom(text, lo, hi + 1) == DescsFrom(text, lo, hi) + [DescValue(text, hi)]
  {
  }

  /** `vars_df[f'desc_{i}'] = vars_df['label'].str.split('!!', expand=True)[i-1]` on every row. */
  function AddDesc(frame: seq<VarRow>, i: nat): (r: seq<VarRow>)
    requires i >= 1
    ensures |r| == |frame|
    ensures forall k :: 0 <= k < |frame| ==>
      r[k] == frame[k].(descs := frame[k].descs + [DescValue(frame[k].v.labelText, i)])
  {
    seq(|frame|, k requires 0 <= k < |frame| =>
      frame[k].(descs := frame[k].descs + [DescValue(frame[k].v.labelText, i)]))
  }

  /** The frame after the `drop`: the code, the kept fields and the `desc_i` columns. */
  function DropColumns(frame: seq<VarRow>): (r: seq<MdRow>)
    ensures |r| == |frame|
    ensures forall k :: 0 <= k < |frame| ==>
      r[k] == MdRow(frame[k].v.code, DropFields(frame[k].v.fields), frame[k].descs)
  {
    seq(|frame|, k requires 0 <= k < |frame| =>
      MdRow(frame[k].v.code, DropFields(frame[k].v.fields), frame[k].descs))
  }

  /** Adding column `desc_i` to a frame holding `desc_lo` .. `desc_(i-1)` makes it hold `desc_lo` .. `desc_i`. */
  lemma AddDescStep(rows: seq<Variable>, frame: seq<VarRow>, lo: nat, i: nat)
    requires 1 <= lo <= i && |frame| == |rows|
    requires forall k :: 0 <= k < |rows| ==> frame[k] == VarRow(rows[k], DescsFrom(rows[k].labelText, lo, i))
    ensures forall k :: 0 <= k < |rows| ==> AddDesc(frame, i)[k] == VarRow(rows[k], DescsFrom(rows[k].labelText, lo, i + 1))
  {
    forall k | 0 <= k < |rows|
      ensures AddDesc(frame, i)[k] == VarRow(rows[k], DescsFrom(rows[k].labelText, lo, i + 1))
    {
      DescsFromSnoc(rows[k].labelText, lo, i);
    }
  }

  /** `parse_md`, step by step as the source builds its frame. */
  method ParseMd(md: Value) returns (r: Result<MdTable, AcsError>)
    ensures r == ParseMetadata(md)
  {
    var vars := Variables(md);
    if vars.Failure? {
      return Failure(vars.error);
    }
    var rows := vars.value;
    var seps := Seps(rows);
    var minSep, maxSep := MinOf(seps), MaxOf(seps);
    MinMaxOf(seps);
    var frame := seq(|rows|, k requires 0 <= k < |rows| => VarRow(rows[k], []));
    var i := minSep + 1;
    while i < maxSep + 2
      invariant minSep + 1 <= i <= maxSep + 2
      invariant |frame| == |rows|
      invariant forall k :: 0 <= k < |rows| ==> frame[k] == VarRow(rows[k], DescsFrom(rows[k].labelText, minSep + 1, i))
    {
      AddDescStep(rows, frame, minSep + 1, i);
      frame := AddDesc(frame, i);
      i := i + 1;
    }
    if minSep != 0 {
      return Failure(MissingKey("desc_1"));
    }
    var table := DropColumns(frame);
    AllRowsAt(rows, maxSep + 1);
    assert table == AllRows(rows, maxSep + 1);
    r := Success(MdTable(maxSep + 1, SortByColumn(Estimates(table))));
  }

  /** `desc_1` is created exactly when some label has no `!!` in it. */
  lemma DescOneCreated(vars: seq<Variable>)
    requires |vars| > 0
    ensures MetadataOf(vars).Success? <==> exists k :: 0 <= k < |vars| && !Contains(vars[k].labelText, LabelSeparator)
  {
    var seps := Seps(vars);
    MinMaxOf(seps);
    SepsAt(vars);
    if MinOf(seps) == 0 {
      var k :| 0 <= k < |seps| && seps[k] == 0;
      CountZero(vars[k].labelText, LabelSeparator);
    } else {
      forall k | 0 <= k < |vars| ensures Contains(vars[k].labelText, LabelSeparator) {
        CountZero(vars[k].labelText, LabelSeparator);
      }
    }
  }

  /**
   * `parse_md` succeeds exactly when the metadata is a dict whose non-empty
   * `variables` dict holds only entries with a string label, and at least one
   * label has no `!!` in it: otherwise column `desc_1` is never created and
   * the `Estimate` filter raises `KeyError`.
   */
  lemma ParseMetadataSucceeds(md: Value)
    ensures ParseMetadata(md).Success? <==>
      WellFormedMetadata(md) &&
      exists k :: 0 <= k < |Variables(md).value| && !Contains(Variables(md).value[k].labelText, LabelSeparator)
  {
    var vars := Variables(md);
    if vars.Success? {
      assert ParseMetadata(md) == MetadataOf(vars.value);
      DescOneCreated(vars.value);
    }
  }

  /** Two sequences holding the same multiset have the same length and the same members. */
  lemma SameElements(a: seq<MdRow>, b: seq<MdRow>)
    requires multiset(a) == multiset(b)
    ensures |a| == |b| && forall x :: x in a <==> x in b
  {
    assert |multiset(a)| == |multiset(b)|;
    forall x ensures x in a <==> x in b {
      assert x in a <==> x in multiset(a);
      assert x in b <==> x in multiset(b);
    }
  }

  /**
   * What a successful `parse_md` returns: its rows are exactly the
   * `Estimate` rows among the variables, each as often as among them, sorted
   * by code, with columns `desc_1` .. `desc_(max count + 1)`.
   */
  lemma ParseMetadataRows(md: Value)
    requires ParseMetadata(md).Success?
    ensures var vars := Variables(md).value; var t := ParseMetadata(md).value;
      && t.descCount == MaxOf(Seps(vars)) + 1
      && ColumnsSorted(t.rows)
      && multiset(t.rows) == multiset(Estimates(AllRows(vars, t.descCount)))
      && |t.rows| <= |vars|
      && (forall row :: row in t.rows <==>
            (exists k :: 0 <= k < |vars| && row == MdRowOf(vars[k], t.descCount)) && IsEstimate(row))
  {
    var vars := Variables(md).value;
    var t := MetadataOf(vars).value;
    var all := AllRows(vars, t.descCount);
    AllRowsAt(vars, t.descCount);
    var kept := Estimates(all);
    SameElements(t.rows, kept);
    AllRowsMembers(vars, t.descCount);
  }

  lemma AllRowsMembers(vars: seq<Variable>, n: nat)
    ensures forall row :: row in AllRows(vars, n) <==> exists k :: 0 <= k < |vars| && row == MdRowOf(vars[k], n)
  {
    var all := AllRows(vars, n);
    AllRowsAt(vars, n);
    forall row ensures row in all <==> exists k :: 0 <= k < |vars| && row == MdRowOf(vars[k], n) {
      if row in all {
        var k :| 0 <= k < |all| && all[k] == row;
      }
    }
  }

  /**
   * Column `desc_i` of an output row is the i-th `!!`-segment of the
   * variable's label when the label has at least i segments, else `None`;
   * the dropped bookkeeping fields are gone and every other field is kept.
   */
  lemma MdRowOfColumns(v: Variable, n: nat, i: nat)
    requires 1 <= i <= n
    ensures |Split(v.labelText, LabelSeparator)| == Count(v.labelText, LabelSeparator) + 1
    ensures |MdRowOf(v, n).descs| == n
    ensures Count(v.labelText, LabelSeparator) + 1 >= i ==>
      MdRowOf(v, n).descs[i - 1] == Some(Split(v.labelText, LabelSeparator)[i - 1])
    ensures Count(v.labelText, LabelSeparator) + 1 < i ==> MdRowOf(v, n).descs[i - 1] == None
    ensures forall f :: f in MdRowOf(v, n).extras <==> f in v.fields && f.0 !in DroppedFields
  {
    SplitCount(v.labelText, LabelSeparator);
  }

  /** A row whose label starts with anything but exactly `Estimate` (say `Margin of Error`) never survives. */
  lemma NonEstimatesDropped(md: Value, row: MdRow)
    requires ParseMetadata(md).Success?
    requires row.descs == [] || row.descs[0] != Some(EstimateKind)
    ensures row !in ParseMetadata(md).value.rows
  {
    ParseMetadataRows(md);
  }

  // ---------------------------------------------------------------------
  // parse_acs
  // ---------------------------------------------------------------------

  /** A cell of the raw table; `None` is JSON `null` or a cell a short row lacks. */
  type Cell = Option<string>

  /** A row of the parsed table: its `tract_id` index and its integer values. */
  datatype ParsedRow = ParsedRow(tract: Option<string>, values: seq<int>)

  /** A parsed table: column names and rows whose values follow those names. */
  datatype ParsedTable = ParsedTable(columns: seq<string>, rows: seq<ParsedRow>)

  const GeoIdColumn: string := "GEO_ID"
  const TractColumn: string := "tract_id"
  const TractSeparator: string := "US"
  const Int64Min: int := -0x8000_0000_0000_0000
  const Int64Max: int := 0x7FFF_FFFF_FFFF_FFFF

  function CellAt(row: seq<Cell>, j: nat): Cell {
    if j < |row| then row[j] else None
  }

  /** The positions, from `i` on, of the header cells named `name`, in header order. */
  function PositionsFrom(header: seq<Cell>, name: string, i: nat): (r: seq<nat>)
    ensures forall p :: p in r <==> i <= p < |header| && header[p] == Some(name)
    ensures forall m, n :: 0 <= m < n < |r| ==> r[m] < r[n]
    decreases |header| - i
  {
    if i >= |header| then []
    else
      var rest := PositionsFrom(header, name, i + 1);
      if header[i] == Some(name) then
        assert forall n :: 0 <= n < |rest| ==> rest[n] in rest;
        [i] + rest
      else rest
  }

  /** The positions of every header cell named `name`: `acs[name]` takes all of them. */
  function Positions(header: seq<Cell>, name: string): (r: seq<nat>)
    ensures forall p :: p in r <==> 0 <= p < |header| && header[p] == Some(name)
    ensures r == [] <==> Some(name) !in header
  {
    var ps := PositionsFrom(header, name, 0);
    assert ps != [] ==> ps[0] in ps;
    assert Some(name) in header ==> exists p: nat :: p < |header| && header[p] == Some(name) && p in ps;
    ps
  }

  /** `geo.split('US')[1]`: the text after the first `US` up to the next one, or `None`. */
  function TractOf(geo: Cell): (r: Option<string>)
    ensures r.Some? <==> geo.Some? && Contains(geo.value, TractSeparator)
  {
    match geo
    case None => None
    case Some(g) =>
      if Contains(g, TractSeparator) then
        SplitCount(g, TractSeparator);
        CountZero(g, TractSeparator);
        Some(Split(g, TractSeparator)[1])
      else None
  }

  /** Some data row's `GEO_ID` holds `US`: only then does column 1 of the split exist. */
  predicate SomeTract(data: seq<seq<Cell>>, geo: nat) {
    exists k :: 0 <= k < |data| && TractOf(CellAt(data[k], geo)).Some?
  }

  /** A key of `cols` names a column when the table is indexed: `tract_id` is the index by then. */
  predicate KeyFound(header: seq<Cell>, key: string) {
    key != TractColumn && Some(key) in header
  }

  /** `int(cell)` followed by the int64 conversion of `astype(int)`. */
  function CastCell(column: string, c: Cell): (r: Result<int, AcsError>)
    ensures r.Success? <==> c.Some? && ParseInt(c.value).Some? && Int64Min <= ParseInt(c.value).value <= Int64Max
    ensures r.Success? ==> ParseInt(c.value) == Some(r.value)
    ensures r.Failure? ==> (r.error.NotAnInteger? || r.error.OutOfRange?) && r.error.column == column
  {
    match c
    case None => Failure(NotAnInteger(column, None))
    case Some(text) =>
      match ParseInt(text)
      case None => Failure(NotAnInteger(column, c))
      case Some(v) => if Int64Min <= v <= Int64Max then Success(v) else Failure(OutOfRange(column, v))
  }

  /** The first key of `cols` that names no column: the `KeyError` of `acs[list(cols.keys())]`. */
  function MissingKeyOf(header: seq<Cell>, cols: seq<(string, string)>): (r: Option<string>)
    ensures r.None? <==> forall j :: 0 <= j < |cols| ==> KeyFound(header, cols[j].0)
    ensures r.Some? ==> exists j ::
      && 0 <= j < |cols| && r.value == cols[j].0 && !KeyFound(header, cols[j].0)
      && forall i :: 0 <= i < j ==> KeyFound(header, cols[i].0)
  {
    if cols == [] then None
    else if !KeyFound(header, cols[0].0) then Some(cols[0].0)
    else
      var r := MissingKeyOf(header, cols[1..]);
      assert forall j :: 1 <= j < |cols| ==> cols[j] == cols[1..][j - 1];
      if r.Some? then
        var j :| 0 <= j < |cols[1..]| && r.value == cols[1..][j].0 && !KeyFound(header, cols[1..][j].0)
          && forall i :: 0 <= i < j ==> KeyFound(header, cols[1..][i].0);
        assert cols[j + 1] == cols[1..][j];
        r
      else r
  }

  /** A kept column: the key that selects it, the name `cols` renames it to, its header position. */
  datatype Kept = Kept(key: string, name: string, pos: nat)

  /** The columns one entry of `cols` keeps: every column named by its key, in header order. */
  function KeptOf(header: seq<Cell>, c: (string, string)): (r: seq<Kept>)
    ensures forall m :: 0 <= m < |r| ==> r[m].key == c.0 && r[m].name == c.1 && KeptIn(header, r[m])
  {
    if c.0 == TractColumn then []
    else
      var ps := Positions(header, c.0);
      assert forall m :: 0 <= m < |ps| ==> ps[m] in ps;
      seq(|ps|, m requires 0 <= m < |ps| => Kept(c.0, c.1, ps[m]))
  }

  /** A kept column sits under a header cell named by its key, and that key is not `tract_id`. */
  predicate KeptIn(header: seq<Cell>, k: Kept) {
    k.pos < |header| && header[k.pos] == Some(k.key) && k.key != TractColumn
  }

  /**
   * `acs[list(cols.keys())]` followed by the renaming: for each key in the
   * order of `cols`, every column of that name, in header order.
   */
  function Selected(header: seq<Cell>, cols: seq<(string, string)>): (r: seq<Kept>)
    ensures forall m :: 0 <= m < |r| ==> KeptIn(header, r[m]) && (r[m].key, r[m].name) in cols
  {
    if cols == [] then []
    else
      var first, rest := KeptOf(header, cols[0]), Selected(header, cols[1..]);
      SelectedConcat(header, cols, first, rest);
      first + rest
  }

  lemma SelectedConcat(header: seq<Cell>, cols: seq<(string, string)>, first: seq<Kept>, rest: seq<Kept>)
    requires cols != []
    requires forall m :: 0 <= m < |first| ==> (first[m].key, first[m].name) == cols[0] && KeptIn(header, first[m])
    requires forall m :: 0 <= m < |rest| ==> KeptIn(header, rest[m]) && (rest[m].key, rest[m].name) in cols[1..]
    ensures forall m :: 0 <= m < |first + rest| ==>
      KeptIn(header, (first + rest)[m]) && ((first + rest)[m].key, (first + rest)[m].name) in cols
  {
    forall m | 0 <= m < |first + rest|
      ensures KeptIn(header, (first + rest)[m]) && ((first + rest)[m].key, (first + rest)[m].name) in cols
    {
      if m >= |first| {
        assert (first + rest)[m] == rest[m - |first|];
      }
    }
  }

  /** The names of the kept columns: the table's columns after the renaming. */
  function Names(sel: seq<Kept>): seq<string> {
    seq(|sel|, m requires 0 <= m < |sel| => sel[m].name)
  }

  /** Every column named by a key of `cols` (other than `tract_id`) is kept, under that key's new name. */
  lemma {:induction false} SelectedKeepsAll(header: seq<Cell>, cols: seq<(string, string)>, j: nat, p: nat)
    requires j < |cols| && cols[j].0 != TractColumn && p < |header| && header[p] == Some(cols[j].0)
    ensures Kept(cols[j].0, cols[j].1, p) in Selected(header, cols)
  {
    if j == 0 {
      var ps := Positions(header, cols[0].0);
      var m :| 0 <= m < |ps| && ps[m] == p;
      assert KeptOf(header, cols[0])[m] == Kept(cols[j].0, cols[j].1, p);
    } else {
      SelectedKeepsAll(header, cols[1..], j - 1, p);
    }
  }

  /**
   * When every key of `cols` names exactly one column, the kept columns are
   * the keys' columns, one each, in the order of `cols`, under the values of
   * `cols`.
   */
  lemma {:induction false} SelectedDistinct(header: seq<Cell>, cols: seq<(string, string)>)
    requires forall j :: 0 <= j < |cols| ==> cols[j].0 != TractColumn && |Positions(header, cols[j].0)| == 1
    ensures |Selected(header, cols)| == |cols|
    ensures forall j :: 0 <= j < |cols| ==>
      Selected(header, cols)[j] == Kept(cols[j].0, cols[j].1, Positions(header, cols[j].0)[0])
  {
    if cols != [] {
      var tail := cols[1..];
      assert forall j :: 0 <= j < |tail| ==> tail[j] == cols[j + 1];
      SelectedDistinct(header, tail);
      var first := KeptOf(header, cols[0]);
      assert first == [Kept(cols[0].0, cols[0].1, Positions(header, cols[0].0)[0])];
      assert Selected(header, cols) == first + Selected(header, tail);
    }
  }

  /** The kept cells of a data row, each with the key of its column. */
  function Pick(row: seq<Cell>, sel: seq<Kept>): (r: seq<(string, Cell)>)
    ensures |r| == |sel| && forall m :: 0 <= m < |sel| ==> r[m] == (sel[m].key, CellAt(row, sel[m].pos))
  {
    seq(|sel|, m requires 0 <= m < |sel| => (sel[m].key, CellAt(row, sel[m].pos)))
  }

  predicate Castable(cells: seq<(string, Cell)>) {
    forall j :: 0 <= j < |cells| ==> CastCell(cells[j].0, cells[j].1).Success?
  }

  /** `astype(int)` on the kept cells of one row. */
  function CastCells(cells: seq<(string, Cell)>): (r: Result<seq<int>, AcsError>)
    ensures r.Success? <==> Castable(cells)
    ensures r.Success? ==> |r.value| == |cells|
    ensures r.Success? ==> forall j :: 0 <= j < |cells| ==> r.value[j] == CastCell(cells[j].0, cells[j].1).value
  {
    if cells == [] then Success([])
    else
      var first := CastCell(cells[0].0, cells[0].1);
      var rest := CastCells(cells[1..]);
      assert forall j :: 1 <= j < |cells| ==> cells[j] == cells[1..][j - 1];
      if first.Failure? then Failure(first.error)
      else if rest.Failure? then rest
      else Success([first.value] + rest.value)
  }

  function CastRows(data: seq<seq<Cell>>, geo: nat, sel: seq<Kept>): (r: Result<seq<ParsedRow>, AcsError>)
    ensures r.Success? <==> forall k :: 0 <= k < |data| ==> Castable(Pick(data[k], sel))
    ensures r.Success? ==> |r.value| == |data|
    ensures r.Success? ==> forall k :: 0 <= k < |data| ==>
      r.value[k] == ParsedRow(TractOf(CellAt(data[k], geo)), CastCells(Pick(data[k], sel)).value)
  {
    if data == [] then Success([])
    else
      var first := CastCells(Pick(data[0], sel));
      var rest := CastRows(data[1..], geo, sel);
      assert forall k :: 1 <= k < |data| ==> data[k] == data[1..][k - 1];
      if first.Failure? then Failure(first.error)
      else if rest.Failure? then rest
      else Success([ParsedRow(TractOf(CellAt(data[0], geo)), first.value)] + rest.value)
  }

  /**
   * `parse_acs`: row 0 becomes the header, `tract_id` is cut out of `GEO_ID`
   * and made the index, the columns named by the keys of `cols` are kept in
   * that order and renamed to its values, and every kept cell is cast to int.
   */
  function ParseAcs(raw: seq<seq<Cell>>, cols: seq<(string, string)>): (r: Result<ParsedTable, AcsError>)
    ensures r.Success? ==> |r.value.rows| == |raw| - 1 && Rectangular(r.value)
  {
    if |raw| == 0 then Failure(EmptyTable)
    else
      var header, data := raw[0], raw[1..];
      var geos := Positions(header, GeoIdColumn);
      if geos == [] then Failure(MissingKey(GeoIdColumn))
      else if |geos| > 1 then Failure(RepeatedColumn(GeoIdColumn))
      else if !SomeTract(data, geos[0]) then Failure(MissingKey("1"))
      else
        match MissingKeyOf(header, cols)
        case Some(key) => Failure(MissingKey(key))
        case None =>
          var sel := Selected(header, cols);
          var rows :- CastRows(data, geos[0], sel);
          Success(ParsedTable(Names(sel), rows))
  }

  /** Every kept cell of every data row reads as an int64 integer. */
  predicate AllCast(raw: seq<seq<Cell>>, sel: seq<Kept>) {
    forall k, m :: 1 <= k < |raw| && 0 <= m < |sel| ==> CastCell(sel[m].key, CellAt(raw[k], sel[m].pos)).Success?
  }

  /** Every condition under which `parse_acs` returns rather than raises. */
  predicate ParseAcsAccepts(raw: seq<seq<Cell>>, cols: seq<(string, string)>) {
    && |raw| > 0
    && |Positions(raw[0], GeoIdColumn)| == 1
    && SomeTract(raw[1..], Positions(raw[0], GeoIdColumn)[0])
    && (forall j :: 0 <= j < |cols| ==> KeyFound(raw[0], cols[j].0))
    && AllCast(raw, Selected(raw[0], cols))
  }

  /** The kept cells of data row `k` line up with the kept columns. */
  lemma PickedCells(raw: seq<seq<Cell>>, sel: seq<Kept>, k: nat)
    requires 1 <= k < |raw|
    ensures forall m :: 0 <= m < |sel| ==> Pick(raw[1..][k - 1], sel)[m] == (sel[m].key, CellAt(raw[k], sel[m].pos))
  {
    assert raw[1..][k - 1] == raw[k];
  }

  /** Casting the data rows succeeds exactly when every kept cell is an int64 integer. */
  lemma CastAllRows(raw: seq<seq<Cell>>, geo: nat, sel: seq<Kept>)
    requires |raw| > 0
    ensures CastRows(raw[1..], geo, sel).Success? <==> AllCast(raw, sel)
  {
    if AllCast(raw, sel) {
      forall k | 0 <= k < |raw| - 1 ensures Castable(Pick(raw[1..][k], sel)) {
        PickedCells(raw, sel, k + 1);
      }
    } else {
      var k, m :| 1 <= k < |raw| && 0 <= m < |sel| && !CastCell(sel[m].key, CellAt(raw[k], sel[m].pos)).Success?;
      PickedCells(raw, sel, k);
      assert !Castable(Pick(raw[1..][k - 1], sel));
    }
  }

  /**
   * `parse_acs` fails exactly when the table is empty, has no `GEO_ID`
   * column or more than one, no `GEO_ID` holds `US`, a key of `cols` is not a
   * column, or a kept cell is not an int64 integer.
   */
  lemma ParseAcsSucceeds(raw: seq<seq<Cell>>, cols: seq<(string, string)>)
    ensures ParseAcs(raw, cols).Success? <==> ParseAcsAccepts(raw, cols)
  {
    if |raw| > 0 {
      var geos := Positions(raw[0], GeoIdColumn);
      if |geos| == 1 && SomeTract(raw[1..], geos[0]) && MissingKeyOf(raw[0], cols).None? {
        CastAllRows(raw, geos[0], Selected(raw[0], cols));
      }
    }
  }

  /**
   * On success `parse_acs` keeps every data row, in order, with the tract of
   * its `GEO_ID`; its columns are the kept columns under their new names, and
   * under each the integer of that column's cell.
   */
  lemma ParseAcsRows(raw: seq<seq<Cell>>, cols: seq<(string, string)>)
    requires ParseAcs(raw, cols).Success?
    ensures var t := ParseAcs(raw, cols).value;
      var geo := Positions(raw[0], GeoIdColumn)[0];
      var sel := Selected(raw[0], cols);
      && t.columns == Names(sel)
      && |t.rows| == |raw| - 1
      && forall k :: 1 <= k < |raw| ==>
           && t.rows[k - 1].tract == TractOf(CellAt(raw[k], geo))
           && |t.rows[k - 1].values| == |sel|
           && forall m :: 0 <= m < |sel| ==>
                CastCell(sel[m].key, CellAt(raw[k], sel[m].pos)) == Success(t.rows[k - 1].values[m])
  {
    var sel := Selected(raw[0], cols);
    forall k | 1 <= k < |raw| {
      PickedCells(raw, sel, k);
    }
  }

  /**
   * With a header that names each key of `cols` once, the parsed table has
   * exactly the values of `cols` as its columns, each holding its key's cells.
   */
  lemma ParseAcsDistinct(raw: seq<seq<Cell>>, cols: seq<(string, string)>)
    requires ParseAcs(raw, cols).Success?
    requires forall j :: 0 <= j < |cols| ==> |Positions(raw[0], cols[j].0)| == 1
    ensures var t := ParseAcs(raw, cols).value;
      && t.columns == Values(cols)
      && forall k, j :: 1 <= k < |raw| && 0 <= j < |cols| ==>
           CastCell(cols[j].0, CellAt(raw[k], Positions(raw[0], cols[j].0)[0])) == Success(t.rows[k - 1].values[j])
  {
    ParseAcsSucceeds(raw, cols);
    SelectedDistinct(raw[0], cols);
    ParseAcsRows(raw, cols);
    var sel := Selected(raw[0], cols);
    assert Names(sel) == Values(cols);
  }

  /** A table whose header names `GEO_ID` twice makes `acs['GEO_ID']` a frame, which has no `.str`. */
  lemma RepeatedGeoIdFails(raw: seq<seq<Cell>>, cols: seq<(string, string)>, p: nat, q: nat)
    requires |raw| > 0 && p < q < |raw[0]| && raw[0][p] == Some(GeoIdColumn) && raw[0][q] == Some(GeoIdColumn)
    ensures ParseAcs(raw, cols) == Failure(RepeatedColumn(GeoIdColumn))
  {
    var geos := Positions(raw[0], GeoIdColumn);
    assert p in geos && q in geos;
  }

  /** The separator `US` cannot start across the join of a `US`-free text and `US`. */
  lemma {:induction false} SplitAtFirst(a: string, b: string)
    requires !Contains(a, TractSeparator)
    ensures Split(a + (TractSeparator + b), TractSeparator) == [a] + Split(b, TractSeparator)
    decreases |a|
  {
    var u := TractSeparator + b;
    if a == [] {
      assert a + u == u;
      SplitAtSeparator(TractSeparator, b);
    } else {
      var t := a[1..];
      NoSeparatorAtStart(a, b);
      ContainsNotInTail(a, TractSeparator);
      SplitAtFirst(t, b);
      assert a == [a[0]] + t;
      SplitCons(a[0], t + u, TractSeparator);
      assert [a[0]] + (t + u) == a + u;
    }
  }

  /** `US` does not overlap itself, so a text free of it cannot run into a following `US`. */
  lemma NoSeparatorAtStart(a: string, b: string)
    requires a != [] && !Contains(a, TractSeparator)
    ensures (a + (TractSeparator + b))[..2] != TractSeparator
  {
    var s := a + (TractSeparator + b);
    assert !OccursAt(a, TractSeparator, 0);
    if |a| == 1 {
      assert s[1] == 'U';
    } else {
      assert s[..2] == a[..2];
    }
  }

  /** `GEO_ID` = (text without `US`) + `US` + (text without `US`): the tract is the part after `US`. */
  lemma TractAfterUs(a: string, b: string)
    requires !Contains(a, TractSeparator) && !Contains(b, TractSeparator)
    ensures TractOf(Some(a + TractSeparator + b)) == Some(b)
  {
    SplitAtFirst(a, b);
    SplitWithoutSeparator(b, TractSeparator);
    var s := a + TractSeparator + b;
    assert s == a + (TractSeparator + b);
    assert s[|a|..|a| + 2] == TractSeparator;
    ContainsOccurrence(s, TractSeparator, |a|);
  }

  lemma NoUNoUs(s: string)
    requires 'U' !in s
    ensures !Contains(s, TractSeparator)
  {
    forall i: nat | i + 2 <= |s| ensures !OccursAt(s, TractSeparator, i) {
      assert s[i..i + 2][0] == s[i];
    }
  }

  /** The census tract of `0500000US36061` is `36061`. */
  lemma TractExample()
    ensures TractOf(Some("0500000US36061")) == Some("36061")
  {
    ExampleHasNoUs();
    assert "0500000US36061" == "0500000" + TractSeparator + "36061";
    TractAfterUs("0500000", "36061");
  }

  lemma ExampleHasNoUs()
    ensures !Contains("0500000", TractSeparator) && !Contains("36061", TractSeparator)
  {
    NoUNoUs("0500000");
    NoUNoUs("36061");
  }

  // ---------------------------------------------------------------------
  // The `year` column, combine_acs_years
  // ---------------------------------------------------------------------

  const YearColumn: string := "year"

  /** `df['year'] = year`: every `year` column set to the year, or a new last column. */
  function SetYear(t: ParsedTable, year: int): (r: ParsedTable)
    ensures YearColumn in r.columns && |r.rows| == |t.rows|
    ensures forall k :: 0 <= k < |r.rows| ==> r.rows[k].tract == t.rows[k].tract
  {
    if YearColumn in t.columns then
      t.(rows := seq(|t.rows|, k requires 0 <= k < |t.rows| =>
        t.rows[k].(values := seq(|t.rows[k].values|, j requires 0 <= j < |t.rows[k].values| =>
          if j < |t.columns| && t.columns[j] == YearColumn then year else t.rows[k].values[j]))))
    else
      ParsedTable(t.columns + [YearColumn],
        seq(|t.rows|, k requires 0 <= k < |t.rows| => t.rows[k].(values := t.rows[k].values + [year])))
  }

  /** Each row's values follow the table's columns. */
  predicate Rectangular(t: ParsedTable) {
    forall k :: 0 <= k < |t.rows| ==> |t.rows[k].values| == |t.columns|
  }

  /**
   * After `df['year'] = year` every row holds the year under every `year`
   * column, and every other column keeps its value.
   */
  lemma SetYearStamps(t: ParsedTable, year: int)
    requires Rectangular(t)
    ensures Rectangular(SetYear(t, year))
    ensures var r := SetYear(t, year);
      forall k, j :: 0 <= k < |r.rows| && 0 <= j < |r.columns| ==>
        r.rows[k].values[j] == (if r.columns[j] == YearColumn then year else t.rows[k].values[j])
  {
  }

  /** A row of the stacked table: `ignore_index=True` has dropped the tract index. */
  datatype FlatRow = FlatRow(columns: seq<string>, values: seq<int>)

  function Stamp(t: ParsedTable, year: int): (r: seq<FlatRow>)
    ensures |r| == |t.rows|
  {
    var s := SetYear(t, year);
    seq(|s.rows|, k requires 0 <= k < |s.rows| => FlatRow(s.columns, s.rows[k].values))
  }

  /** The list `combined` after visiting the given years. */
  function YearFrames(data: map<int, ParsedTable>, years: seq<int>): seq<seq<FlatRow>> {
    if years == [] then []
    else
      var last := years[|years| - 1];
      YearFrames(data, years[..|years| - 1]) + (if last in data then [Stamp(data[last], last)] else [])
  }

  /** `pd.concat(frames, ignore_index=True)` */
  function Concat(frames: seq<seq<FlatRow>>): seq<FlatRow> {
    if frames == [] then [] else Concat(frames[..|frames| - 1]) + frames[|frames| - 1]
  }

  /** The rows of the tables of the present years, in the order the years are listed. */
  function TotalRows(data: map<int, ParsedTable>, years: seq<int>): nat {
    if years == [] then 0
    else
      var last := years[|years| - 1];
      TotalRows(data, years[..|years| - 1]) + (if last in data then |data[last].rows| else 0)
  }

  lemma ConcatSnoc(frames: seq<seq<FlatRow>>, f: seq<FlatRow>)
    ensures Concat(frames + [f]) == Concat(frames) + f
  {
    assert (frames + [f])[..|frames|] == frames;
  }

  /** `combine_acs_years`: the tables of the years of `year_range` present in `data_dict`, stamped and stacked. */
  method CombineAcsYears(data: map<int, ParsedTable>, years: seq<int>) returns (combined: seq<FlatRow>)
    ensures combined == Concat(YearFrames(data, years))
  {
    var frames: seq<seq<FlatRow>> := [];
    for i := 0 to |years|
      invariant frames == YearFrames(data, years[..i])
    {
      var year := years[i];
      assert years[..i + 1][..i] == years[..i];
      if year in data {
        frames := frames + [Stamp(data[year], year)];
      }
    }
    assert years[..|years|] == years;
    if frames == [] {
      return [];
    }
    combined := Concat(frames);
  }

  /** The stacked table has as many rows as the tables of the present years together. */
  lemma {:induction false} CombinedLength(data: map<int, ParsedTable>, years: seq<int>)
    ensures |Concat(YearFrames(data, years))| == TotalRows(data, years)
    decreases |years|
  {
    if years != [] {
      var front := years[..|years| - 1];
      var last := years[|years| - 1];
      CombinedLength(data, front);
      var f := YearFrames(data, front);
      assert TotalRows(data, years) == TotalRows(data, front) + (if last in data then |data[last].rows| else 0);
      if last in data {
        assert YearFrames(data, years) == f + [Stamp(data[last], last)];
        ConcatSnoc(f, Stamp(data[last], last));
      } else {
        assert YearFrames(data, years) == f;
      }
    }
  }

  /** With no year of the range in the dictionary the result is empty. */
  lemma {:induction false} CombineNothingPresent(data: map<int, ParsedTable>, years: seq<int>)
    requires forall k :: 0 <= k < |years| ==> years[k] !in data
    ensures Concat(YearFrames(data, years)) == []
    decreases |years|
  {
    if years != [] {
      var front := years[..|years| - 1];
      assert years[|years| - 1] !in data;
      CombineNothingPresent(data, front);
      assert YearFrames(data, years) == YearFrames(data, front);
    }
  }

  /** Every stacked row carries a `year` column holding a year of the range that is in the dictionary. */
  lemma {:induction false} CombinedRowsStamped(data: map<int, ParsedTable>, years: seq<int>, x: FlatRow)
    requires forall y :: y in data ==> Rectangular(data[y])
    requires x in Concat(YearFrames(data, years))
    ensures exists y, j ::
      y in years && y in data && 0 <= j < |x.columns| && j < |x.values| && x.columns[j] == YearColumn && x.values[j] == y
    decreases |years|
  {
    var front := years[..|years| - 1];
    var last := years[|years| - 1];
    var f := YearFrames(data, front);
    if last in data && x in Stamp(data[last], last) {
      assert last in years;
      var t := data[last];
      SetYearStamps(t, last);
      var s := SetYear(t, last);
      var k :| 0 <= k < |s.rows| && x == FlatRow(s.columns, s.rows[k].values);
      var j :| 0 <= j < |s.columns| && s.columns[j] == YearColumn;
      assert x.values[j] == last;
    } else {
      if last in data {
        assert YearFrames(data, years) == f + [Stamp(data[last], last)];
        ConcatSnoc(f, Stamp(data[last], last));
      } else {
        assert YearFrames(data, years) == f;
      }
      CombinedRowsStamped(data, front, x);
      var y, j :| y in front && y in data && 0 <= j < |x.columns| && j < |x.values| &&
        x.columns[j] == YearColumn && x.values[j] == y;
      assert y in years;
    }
  }

  // ---------------------------------------------------------------------
  // verify_acs_data
  // ---------------------------------------------------------------------

  /** One entry of `acs_columns`: a display name and the code -> friendly-name map. */
  datatype Dataset = Dataset(name: string, columns: seq<(string, string)>)

  /** The friendly names of every dataset, dataset by dataset, duplicates kept. */
  function ExpectedColumns(datasets: seq<(string, Dataset)>): seq<string> {
    if datasets == [] then []
    else ExpectedColumns(datasets[..|datasets| - 1]) + Values(datasets[|datasets| - 1].1.columns)
  }

  /** `[col for col in expected if col not in actual]` */
  function Missing(expected: seq<string>, actual: seq<string>): (r: seq<string>)
    ensures |r| <= |expected|
    ensures forall c :: c in r <==> c in expected && c !in actual
  {
    if expected == [] then []
    else
      var rest := Missing(expected[1..], actual);
      assert forall c :: c in expected <==> c == expected[0] || c in expected[1..];
      (if expected[0] in actual then [] else [expected[0]]) + rest
  }

  /**
   * `verify_acs_data`: `(True, [])` when every expected friendly name is a
   * column, else `(False, missing)`; the report it logs reads the `GEOID` and
   * `year` columns, so a table without either raises `KeyError`.
   */
  method VerifyAcsData(columns: seq<string>, datasets: seq<(string, Dataset)>)
    returns (r: Result<(bool, seq<string>), AcsError>)
    ensures r.Success? <==> "GEOID" in columns && YearColumn in columns
    ensures r.Success? ==> r.value.1 == Missing(ExpectedColumns(datasets), columns)
    ensures r.Success? ==> (r.value.0 <==> forall c :: c in ExpectedColumns(datasets) ==> c in columns)
  {
    var expected: seq<string> := [];
    for i := 0 to |datasets|
      invariant expected == ExpectedColumns(datasets[..i])
    {
      assert datasets[..i + 1][..i] == datasets[..i];
      expected := expected + Values(datasets[i].1.columns);
    }
    assert datasets[..|datasets|] == datasets;
    var missing := Missing(expected, columns);
    if "GEOID" !in columns {
      return Failure(MissingKey("GEOID"));
    }
    if YearColumn !in columns {
      return Failure(MissingKey(YearColumn));
    }
    if missing != [] {
      assert missing[0] in missing;
    }
    r := Success((|missing| == 0, missing));
  }
}
