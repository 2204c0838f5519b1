/** The raw-survey cleaning steps: client-ID renumbering (create_id), positional column
    removal (remove_columns), header renaming (rename_columns) and the in-place cleaning
    of a frame (clean_data). */
module RawData {
  import opened Values
  import opened Seqs
  import opened Sheets
  import Recode
  import Text
  import Modes

  /** The errors the cleaning steps raise: KeyError for a missing label, ValueError from
      int() on a years-at-camp text, KeyError from mode()[0] on a column with no value. */
  datatype CleanError = MissingColumn(name: string) | NotAnInteger(text: string) | NoMode(name: string)

  // ---------------------------------------------------------------- create_id

  /** The dict of create_id: a 2018 client ID maps to its 1-based position among the
      distinct 2018 IDs, in the order in which they first appear. */
  function Ordinal(ids: seq<Value>, v: Value): (o: nat)
    requires v in ids
    ensures 1 <= o <= |Unique(ids)| && Unique(ids)[o - 1] == v
  {
    var k :| 0 <= k < |ids| && ids[k] == v;
    assert ids[k] in Unique(ids);
    FirstIndex(Unique(ids), v) + 1
  }

  /** Two 2018 IDs get the same ordinal exactly when they are the same ID, and an earlier
      first appearance gets a smaller ordinal. */
  lemma OrdinalOrder(ids: seq<Value>, v: Value, w: Value)
    requires v in ids && w in ids
    ensures Ordinal(ids, v) == Ordinal(ids, w) <==> v == w
    ensures Ordinal(ids, v) < Ordinal(ids, w) <==> FirstIndex(ids, v) < FirstIndex(ids, w)
  {
    var u := Unique(ids);
    var i, j := Ordinal(ids, v) - 1, Ordinal(ids, w) - 1;
    UniqueFirstAppearance(ids);
    if i < j {
      assert FirstIndex(ids, u[i]) < FirstIndex(ids, u[j]);
    } else if j < i {
      assert FirstIndex(ids, u[j]) < FirstIndex(ids, u[i]);
    }
  }

  /** Every ordinal 1..|Unique(ids)| belongs to some 2018 ID. */
  lemma OrdinalOnto(ids: seq<Value>, o: nat)
    requires 1 <= o <= |Unique(ids)|
    ensures exists v :: v in ids && Ordinal(ids, v) == o
  {
    var u := Unique(ids);
    var v := u[o - 1];
    assert v in ids && Ordinal(ids, v) - 1 == o - 1 by {
      assert Distinct(u);
    }
  }

  /** The rows create_id keeps: those whose year is the text "2018", then those whose
      year is "2019", each block in the original order. */
  function YearRows(years: seq<Value>): (pos: seq<nat>)
    ensures |pos| == Count(years, Str("2018")) + Count(years, Str("2019"))
    ensures forall r :: 0 <= r < |pos| ==> pos[r] < |years|
  {
    Where(years, Str("2018")) + Where(years, Str("2019"))
  }

  /** The 2018 client IDs, top to bottom (df_2018['Client ID']). */
  function Ids2018(ids: seq<Value>, years: seq<Value>): (r: seq<Value>)
    requires |ids| == |years|
  {
    Pick(ids, Where(years, Str("2018")))
  }

  /** One new client ID: str(ID) + zip prefix + str(year), where a 2018 ID has first
      been replaced by its ordinal. */
  function NewId(ids: seq<Value>, zips: seq<Value>, years: seq<Value>, r: nat,
                 floatText: real -> string): (v: Value)
    requires |ids| == |zips| == |years| && r < |YearRows(years)|
  {
    var pos := YearRows(years);
    var id := ids[pos[r]];
    var n18 := Count(years, Str("2018"));
    var shown := if r < n18 then (assert id == Ids2018(ids, years)[r]; Int(Ordinal(Ids2018(ids, years), id))) else id;
    Str(Show(shown, floatText) + Recode.ZipPrefix(zips[pos[r]], floatText) + Show(years[pos[r]], floatText))
  }

  /** create_id: keeps the 2018 and 2019 rows (2018 first), renumbers the 2018 client
      IDs and rebuilds every ID as ID + zip prefix + year. A KeyError for the first of
      'year', 'Client ID' and 'Zip Code' that is missing. */
  function CreateId(sh: seq<Column>, n: nat, floatText: real -> string): (r: Result<seq<Column>, CleanError>)
    requires Height(sh, n)
    ensures r.Failure? <==> "year" !in Names(sh) || "Client ID" !in Names(sh) || "Zip Code" !in Names(sh)
    ensures "year" !in Names(sh) ==> r == Failure(MissingColumn("year"))
    ensures "year" in Names(sh) && "Client ID" !in Names(sh) ==> r == Failure(MissingColumn("Client ID"))
    ensures r.Success? ==> Names(r.value) == Names(sh)
    ensures r.Success? ==>
      var years := sh[Find(sh, "year").value].cells;
      Height(r.value, Count(years, Str("2018")) + Count(years, Str("2019")))
  {
    var y, c, z := Find(sh, "year"), Find(sh, "Client ID"), Find(sh, "Zip Code");
    if y.None? then Failure(MissingColumn("year"))
    else if c.None? then Failure(MissingColumn("Client ID"))
    else if z.None? then Failure(MissingColumn("Zip Code"))
    else
      var years, ids, zips := sh[y.value].cells, sh[c.value].cells, sh[z.value].cells;
      var pos := YearRows(years);
      var newIds := seq(|pos|, r requires 0 <= r < |pos| => NewId(ids, zips, years, r, floatText));
      Success(Rows(sh, n, pos, c.value, newIds))
  }

  /** The rows at pos of every column, except that column c is replaced by newIds. */
  function Rows(sh: seq<Column>, n: nat, pos: seq<nat>, c: nat, newIds: seq<Value>): (r: seq<Column>)
    requires Height(sh, n) && c < |sh| && |newIds| == |pos|
    requires forall i :: 0 <= i < |pos| ==> pos[i] < n
    ensures Names(r) == Names(sh)
    ensures Height(r, |pos|)
    ensures r[c].cells == newIds
    ensures forall j :: 0 <= j < |sh| && j != c ==> r[j].cells == Pick(sh[j].cells, pos)
  {
    var cols := seq(|sh|, j requires 0 <= j < |sh| =>
      if j == c then Column(sh[j].name, newIds) else Column(sh[j].name, Pick(sh[j].cells, pos)));
    assert Names(cols) == Names(sh);
    cols
  }

  /** Row r of the result is input row YearRows(years)[r]: every column other than
      'Client ID' carries that row's cell, and the 2018 rows come first. */
  lemma CreateIdRows(sh: seq<Column>, n: nat, floatText: real -> string, j: nat, r: nat)
    requires Height(sh, n)
    requires CreateId(sh, n, floatText).Success?
    requires j < |sh| && sh[j].name != "Client ID"
    requires r < |YearRows(sh[Find(sh, "year").value].cells)|
    ensures var years := sh[Find(sh, "year").value].cells;
      var k := YearRows(years)[r];
      CreateId(sh, n, floatText).value[j].cells[r] == sh[j].cells[k] &&
      (r < Count(years, Str("2018")) <==> years[k] == Str("2018"))
  {
    var years := sh[Find(sh, "year").value].cells;
    var p18 := Where(years, Str("2018"));
    assert YearRows(years) == p18 + Where(years, Str("2019"));
    assert j != Find(sh, "Client ID").value;
  }

  /** A 2018 row's new ID is its ordinal, the zip prefix and "2018"; a 2019 row's is its
      old ID's text, the zip prefix and "2019". */
  lemma NewIdFormat(ids: seq<Value>, zips: seq<Value>, years: seq<Value>, r: nat,
                    floatText: real -> string)
    requires |ids| == |zips| == |years| && r < |YearRows(years)|
    ensures var k := YearRows(years)[r];
      var zip := zips[k];
      var id := ids[k];
      if r < Count(years, Str("2018")) then
        id in Ids2018(ids, years) &&
        NewId(ids, zips, years, r, floatText) ==
          Str(IntText(Ordinal(Ids2018(ids, years), id)) + Recode.ZipPrefix(zip, floatText) + "2018")
      else
        NewId(ids, zips, years, r, floatText) == Str(Show(id, floatText) + Recode.ZipPrefix(zip, floatText) + "2019")
  {
    var p18 := Where(years, Str("2018"));
    assert YearRows(years) == p18 + Where(years, Str("2019"));
    if r < |p18| {
      assert ids[YearRows(years)[r]] == Ids2018(ids, years)[r];
    }
  }

  /** The new 'Client ID' cell of result row r: for a 2018 row, its ordinal, the zip
      prefix and "2018"; for a 2019 row, its old ID's text, the zip prefix and "2019". */
  lemma CreateIdFormat(sh: seq<Column>, n: nat, floatText: real -> string, r: nat)
    requires Height(sh, n)
    requires CreateId(sh, n, floatText).Success?
    requires r < |YearRows(sh[Find(sh, "year").value].cells)|
    ensures var years := sh[Find(sh, "year").value].cells;
      var ids := sh[Find(sh, "Client ID").value].cells;
      var zip := sh[Find(sh, "Zip Code").value].cells[YearRows(years)[r]];
      var id := ids[YearRows(years)[r]];
      var cell := CreateId(sh, n, floatText).value[Find(sh, "Client ID").value].cells[r];
      if r < Count(years, Str("2018")) then
        id in Ids2018(ids, years) &&
        cell == Str(IntText(Ordinal(Ids2018(ids, years), id)) + Recode.ZipPrefix(zip, floatText) + "2018")
      else
        cell == Str(Show(id, floatText) + Recode.ZipPrefix(zip, floatText) + "2019")
  {
    var years := sh[Find(sh, "year").value].cells;
    var ids := sh[Find(sh, "Client ID").value].cells;
    var zips := sh[Find(sh, "Zip Code").value].cells;
    NewIdFormat(ids, zips, years, r, floatText);
  }

  // ---------------------------------------------------------------- remove_columns

  /** df.drop(columns=[name]) on a frame: KeyError once no column carries the label. */
  function DropName(sh: seq<Column>, name: string): (r: Result<seq<Column>, CleanError>)
    ensures r.Failure? <==> name !in Names(sh)
    ensures r.Failure? ==> r.error == MissingColumn(name)
    ensures r.Success? ==> r.value == Without(sh, name)
  {
    if name in Names(sh) then Success(Without(sh, name)) else Failure(MissingColumn(name))
  }

  /** The drops of the loop, one label after the other; the first failure stops it. */
  function DropEach(sh: seq<Column>, names: seq<string>): Result<seq<Column>, CleanError>
    decreases |names|
  {
    if names == [] then Success(sh)
    else
      match DropEach(sh, names[..|names| - 1])
      case Failure(e) => Failure(e)
      case Success(d) => DropName(d, names[|names| - 1])
  }

  /** Once a drop has failed, the later labels are never reached. */
  lemma {:induction false} DropEachStuck(sh: seq<Column>, names: seq<string>, k: nat)
    requires k <= |names| && DropEach(sh, names[..k]).Failure?
    ensures DropEach(sh, names) == DropEach(sh, names[..k])
    decreases |names| - k
  {
    if k == |names| {
      assert names[..k] == names;
    } else {
      var init := names[..|names| - 1];
      assert init[..k] == names[..k];
      DropEachStuck(sh, init, k);
    }
  }

  /** df.drop(columns=df.iloc[:, -4:-3]): the label of the fourth column from the end.
      With fewer than four columns the slice is empty and nothing is dropped. */
  function DropFourthFromEnd(sh: seq<Column>): (r: seq<Column>)
    ensures |sh| < 4 ==> r == sh
  {
    var s := Slice(sh, -4, -3);
    if s == [] then sh else Without(sh, s[0].name)
  }

  /** remove_columns: keep the first 37 columns, drop the labels found at positions 5..18
      one by one, then drop the label at position -4. */
  function RemoveSpec(sh: seq<Column>): Result<seq<Column>, CleanError>
  {
    var kept := Slice(sh, 0, 37);
    match DropEach(kept, Names(Slice(kept, 5, 19)))
    case Failure(e) => Failure(e)
    case Success(d) => Success(DropFourthFromEnd(d))
  }

  method RemoveColumns(sh: seq<Column>) returns (r: Result<seq<Column>, CleanError>)
    ensures r == RemoveSpec(sh)
  {
    var kept := Slice(sh, 0, 37);
    var df := kept;
    var names := Names(Slice(df, 5, 19));
    var i := 0;
    while i < |names|
      invariant i <= |names|
      invariant DropEach(kept, names[..i]) == Success(df)
    {
      assert names[..i + 1][..i] == names[..i];
      if names[i] !in Names(df) {
        DropEachStuck(kept, names, i + 1);
        return Failure(MissingColumn(names[i]));
      }
      df := Without(df, names[i]);
      i := i + 1;
    }
    assert names[..i] == names;
    df := DropFourthFromEnd(df);
    return Success(df);
  }

  /** With at least 37 columns whose first 37 labels are distinct, remove_columns keeps
      columns 0..4, 19..32 and 34..36: 22 columns. */
  lemma RemoveColumnsLayout(sh: seq<Column>)
    requires |sh| >= 37 && Distinct(Names(sh[..37]))
    ensures RemoveSpec(sh) == Success(sh[..5] + sh[19..33] + sh[34..37])
    ensures |sh[..5] + sh[19..33] + sh[34..37]| == 22
  {
    var kept := sh[..37];
    assert Slice(sh, 0, 37) == kept;
    var names := Names(Slice(kept, 5, 19));
    assert names == Names(kept[5..19]);
    DropBlock(kept, 14);
    assert names[..14] == names;
    var d := kept[..5] + kept[19..];
    assert |d| == 23;
    DistinctDrop(kept, 5, 19);
    assert Slice(d, -4, -3) == [d[19]];
    WithoutAt(d, 19);
    assert d[..19] + d[20..] == sh[..5] + sh[19..33] + sh[34..37];
  }

  /** The loop of remove_columns on distinct labels: after k drops, columns 5..5+k-1 are gone. */
  lemma {:induction false} DropBlock(kept: seq<Column>, k: nat)
    requires |kept| == 37 && Distinct(Names(kept)) && k <= 14
    ensures DropEach(kept, Names(kept[5..19])[..k]) == Success(kept[..5] + kept[5 + k..])
  {
    var names := Names(kept[5..19]);
    if k == 0 {
      assert kept[..5] + kept[5..] == kept;
    } else {
      DropBlock(kept, k - 1);
      assert names[..k][..k - 1] == names[..k - 1];
      assert names[..k][k - 1] == kept[5 + k - 1].name;
      DropNext(kept, k);
    }
  }

  /** The k-th drop of the block removes column 4 + k, which by then sits at position 5. */
  lemma DropNext(kept: seq<Column>, k: nat)
    requires |kept| == 37 && Distinct(Names(kept)) && 1 <= k <= 14
    ensures DropName(kept[..5] + kept[5 + k - 1..], kept[5 + k - 1].name) == Success(kept[..5] + kept[5 + k..])
  {
    var cur := kept[..5] + kept[5 + k - 1..];
    DistinctDrop(kept, 5, 5 + k - 1);
    assert cur[5] == kept[5 + k - 1];
    WithoutAt(cur, 5);
    assert cur[..5] + cur[6..] == kept[..5] + kept[5 + k..];
  }

  /** Removing a block of columns keeps the labels distinct. */
  lemma DistinctDrop(sh: seq<Column>, a: nat, b: nat)
    requires a <= b <= |sh| && Distinct(Names(sh))
    ensures Distinct(Names(sh[..a] + sh[b..]))
  {
    var t := sh[..a] + sh[b..];
    forall i, j | 0 <= i < j < |t|
      ensures Names(t)[i] != Names(t)[j]
    {
      var i' := if i < a then i else i + b - a;
      var j' := if j < a then j else j + b - a;
      assert t[i] == sh[i'] && t[j] == sh[j'];
      assert Names(sh)[i'] != Names(sh)[j'];
    }
  }

  // ---------------------------------------------------------------- rename_columns

  /** The header mapping of rename_columns; a label it does not list is kept. */
  function NewLabel(name: string): string
  {
    if name == "Client ID" then "client"
    else if name == "Age" then "age"
    else if name == "Years at Camp" then "years_at_camp"
    else if name == "Race/Ethnicity" then "race/ethnicity"
    else if name == "Zip Code" then "zip_code"
    else name
  }

  /** df.rename(columns=...): every label mapped at once, the cells untouched. */
  function Relabel(sh: seq<Column>): (r: seq<Column>)
    ensures |r| == |sh|
    ensures forall j :: 0 <= j < |sh| ==> r[j].name == NewLabel(sh[j].name) && r[j].cells == sh[j].cells
  {
    seq(|sh|, j requires 0 <= j < |sh| => Column(NewLabel(sh[j].name), sh[j].cells))
  }

  /** Renaming twice is renaming once (no new label is itself renamed), and each of the
      five source labels is found under its new name afterwards. */
  lemma RelabelIdempotent(sh: seq<Column>)
    ensures Relabel(Relabel(sh)) == Relabel(sh)
  {
    var once := Relabel(sh);
    var twice := Relabel(once);
    forall j | 0 <= j < |sh|
      ensures twice[j] == once[j]
    {
      NewLabelIdempotent(sh[j].name);
    }
  }

  lemma NewLabelIdempotent(name: string)
    ensures NewLabel(NewLabel(name)) == NewLabel(name)
  {
  }

  /** Each of the five source labels is found under its new name after the rename. */
  lemma RelabelFinds(sh: seq<Column>)
    ensures "Client ID" in Names(sh) ==> "client" in Names(Relabel(sh))
    ensures "Age" in Names(sh) ==> "age" in Names(Relabel(sh))
    ensures "Years at Camp" in Names(sh) ==> "years_at_camp" in Names(Relabel(sh))
    ensures "Race/Ethnicity" in Names(sh) ==> "race/ethnicity" in Names(Relabel(sh))
    ensures "Zip Code" in Names(sh) ==> "zip_code" in Names(Relabel(sh))
  {
    forall name | name in Names(sh)
      ensures NewLabel(name) in Names(Relabel(sh))
    {
      var j :| 0 <= j < |sh| && Names(sh)[j] == name;
      assert Names(Relabel(sh))[j] == NewLabel(name);
    }
  }

  // ---------------------------------------------------------------- clean_data, step by step

  /** The frame after clean_data, and the exception that stopped it if one did: the
      steps before the failing one have already changed the frame in place. */
  datatype Cleaned = Cleaned(sheet: seq<Column>, error: Option<CleanError>)

  /** The same labels in the same positions. */
  predicate SameLayout(a: seq<Column>, b: seq<Column>)
  {
    |a| == |b| && forall j :: 0 <= j < |a| ==> a[j].name == b[j].name
  }

  /** Column k gets new cells, every other column is unchanged. */
  function SetCells(sh: seq<Column>, k: nat, cells: seq<Value>): (r: seq<Column>)
    requires k < |sh|
    ensures SameLayout(r, sh) && r[k].cells == cells
    ensures forall j :: 0 <= j < |sh| && j != k ==> r[j] == sh[j]
  {
    sh[k := Column(sh[k].name, cells)]
  }

  /** An element-wise Series operation. */
  function MapCells(cells: seq<Value>, f: Value -> Value): (r: seq<Value>)
    ensures |r| == |cells| && forall i :: 0 <= i < |cells| ==> r[i] == f(cells[i])
  {
    seq(|cells|, i requires 0 <= i < |cells| => f(cells[i]))
  }

  /** df['zip_code'] = str(cell).split('.')[0] for every cell. */
  function ZipStep(sh: seq<Column>, floatText: real -> string): (r: Result<seq<Column>, CleanError>)
    ensures r.Failure? <==> "zip_code" !in Names(sh)
    ensures r.Failure? ==> r.error == MissingColumn("zip_code")
    ensures r.Success? ==> var k := Find(sh, "zip_code").value;
      r.value == SetCells(sh, k, MapCells(sh[k].cells, v => Recode.ZipCell(v, floatText)))
  {
    match Find(sh, "zip_code")
    case None => Failure(MissingColumn("zip_code"))
    case Some(k) => Success(SetCells(sh, k, MapCells(sh[k].cells, v => Recode.ZipCell(v, floatText))))
  }

  /** .astype(str).str.rstrip('nd|th|st|rd').astype(int) on a whole column: every cell
      becomes an integer, or the first cell int() rejects raises ValueError. */
  function ParseYears(cells: seq<Value>, floatText: real -> string): (r: Result<seq<Value>, CleanError>)
    ensures r.Success? <==> forall i :: 0 <= i < |cells| ==> Recode.Years(cells[i], floatText).Some?
    ensures r.Success? ==>
      |r.value| == |cells| &&
      forall i :: 0 <= i < |cells| ==> r.value[i] == Int(Recode.Years(cells[i], floatText).value)
    ensures r.Failure? ==> r.error.NotAnInteger?
    decreases |cells|
  {
    if cells == [] then Success([])
    else
      match Recode.Years(cells[0], floatText)
      case None => Failure(NotAnInteger(Text.RStrip(Show(cells[0], floatText), Recode.YearChars)))
      case Some(n) =>
        match ParseYears(cells[1..], floatText)
        case Failure(e) =>
          assert forall i :: 0 <= i < |cells| - 1 ==> cells[1..][i] == cells[i + 1];
          Failure(e)
        case Success(rest) =>
          assert forall i :: 0 <= i < |cells| - 1 ==> cells[1..][i] == cells[i + 1];
          Success([Int(n)] + rest)
  }

  /** The ValueError names a cell that int() rejects, after the strip. */
  lemma {:induction false} ParseYearsError(cells: seq<Value>, floatText: real -> string)
    ensures var r := ParseYears(cells, floatText);
      r.Failure? ==>
      exists i :: 0 <= i < |cells| && Recode.Years(cells[i], floatText).None? &&
        r.error == NotAnInteger(Text.RStrip(Show(cells[i], floatText), Recode.YearChars))
    decreases |cells|
  {
    if cells != [] && ParseYears(cells, floatText).Failure? && Recode.Years(cells[0], floatText).Some? {
      var tail := cells[1..];
      ParseYearsError(tail, floatText);
      var i :| 0 <= i < |tail| && Recode.Years(tail[i], floatText).None? &&
        ParseYears(tail, floatText).error == NotAnInteger(Text.RStrip(Show(tail[i], floatText), Recode.YearChars));
      assert tail[i] == cells[i + 1];
    }
  }

  function YearsStep(sh: seq<Column>, floatText: real -> string): (r: Result<seq<Column>, CleanError>)
    ensures "years_at_camp" !in Names(sh) ==> r == Failure(MissingColumn("years_at_camp"))
    ensures r.Success? ==>
      "years_at_camp" in Names(sh) &&
      var k := Find(sh, "years_at_camp").value;
      ParseYears(sh[k].cells, floatText).Success? &&
      r.value == SetCells(sh, k, ParseYears(sh[k].cells, floatText).value)
  {
    match Find(sh, "years_at_camp")
    case None => Failure(MissingColumn("years_at_camp"))
    case Some(k) =>
      match ParseYears(sh[k].cells, floatText)
      case Failure(e) => Failure(e)
      case Success(years) => Success(SetCells(sh, k, years))
  }

  /** The race column, lower-cased, rewritten and then grouped into four labels. */
  function RaceStep(sh: seq<Column>): (r: Result<seq<Column>, CleanError>)
    ensures r.Failure? <==> "race/ethnicity" !in Names(sh)
    ensures r.Failure? ==> r.error == MissingColumn("race/ethnicity")
    ensures r.Success? ==> var k := Find(sh, "race/ethnicity").value;
      r.value == SetCells(sh, k, MapCells(sh[k].cells, v => Str(Recode.RaceGroup(Recode.RaceText(v)))))
  {
    match Find(sh, "race/ethnicity")
    case None => Failure(MissingColumn("race/ethnicity"))
    case Some(k) => Success(SetCells(sh, k, MapCells(sh[k].cells, v => Str(Recode.RaceGroup(Recode.RaceText(v))))))
  }

  /** The score loop over the columns at positions lo..k-1: each one lower-cased and
      mapped through score_dict. */
  function ScoreCols(sh: seq<Column>, lo: nat, k: nat): (r: seq<Column>)
    requires lo <= k <= |sh|
    ensures SameLayout(r, sh)
    ensures forall j :: 0 <= j < |sh| && !(lo <= j < k) ==> r[j] == sh[j]
    ensures forall j :: lo <= j < k ==> r[j].cells == MapCells(sh[j].cells, Recode.Score)
    decreases k
  {
    if k == lo then sh
    else SetCells(ScoreCols(sh, lo, k - 1), k - 1, MapCells(sh[k - 1].cells, Recode.Score))
  }

  /** The fill loop over the columns at positions lo..k-1: column j takes fills[j], the
      column filled with its own mode, and a column whose mode() is empty stops the loop
      with KeyError. The fill of a column depends on its own cells only, which the loop
      has not touched before it reaches them, so the fills are read off the frame as it
      was when the loop started. */
  function FillCols(sh: seq<Column>, fills: seq<Option<seq<Value>>>, lo: nat, k: nat): (r: Cleaned)
    requires lo <= k <= |sh| == |fills|
    ensures SameLayout(r.sheet, sh)
    ensures forall j :: 0 <= j < |sh| && !(lo <= j < k) ==> r.sheet[j] == sh[j]
    decreases k
  {
    if k == lo then Cleaned(sh, None)
    else
      var prev := FillCols(sh, fills, lo, k - 1);
      if prev.error.Some? then prev
      else
        match fills[k - 1]
        case None => Cleaned(prev.sheet, Some(NoMode(prev.sheet[k - 1].name)))
        case Some(filled) => Cleaned(SetCells(prev.sheet, k - 1, filled), None)
  }

  /** Without an exception every column of lo..k-1 holds its fill; an exception names
      the first column of lo..k-1 whose fill is missing. */
  lemma {:induction false} FillColsFacts(sh: seq<Column>, fills: seq<Option<seq<Value>>>, lo: nat, k: nat)
    requires lo <= k <= |sh| == |fills|
    ensures var r := FillCols(sh, fills, lo, k);
      r.error.None? <==> forall j :: lo <= j < k ==> fills[j].Some?
    ensures var r := FillCols(sh, fills, lo, k);
      r.error.None? ==> forall j :: lo <= j < k ==> r.sheet[j].cells == fills[j].value
    ensures var r := FillCols(sh, fills, lo, k);
      r.error.Some? ==>
      exists j :: lo <= j < k && fills[j].None? && r.error == Some(NoMode(sh[j].name)) &&
        forall i :: lo <= i < j ==> fills[i].Some?
    decreases k
  {
    if k > lo {
      FillColsFacts(sh, fills, lo, k - 1);
      var prev := FillCols(sh, fills, lo, k - 1);
      if prev.error.None? {
        assert prev.sheet[k - 1] == sh[k - 1];
      }
    }
  }

  /** One turn of the fill loop: column j, still as it came in, takes its fill or raises. */
  lemma FillStep(sh: seq<Column>, lo: nat, j: nat, t: seq<Column>)
    requires lo <= j < |sh|
    requires FillCols(sh, Fills(sh), lo, j) == Cleaned(t, None)
    ensures |t| == |sh| && t[j] == sh[j]
    ensures var filled := FillColumn(t[j].cells);
      FillCols(sh, Fills(sh), lo, j + 1) ==
        if filled.None? then Cleaned(t, Some(NoMode(t[j].name)))
        else Cleaned(SetCells(t, j, filled.value), None)
  {
    FillsAt(sh, j);
  }

  /** Once the fill loop has raised, later columns change nothing. */
  lemma {:induction false} FillColsStuck(sh: seq<Column>, fills: seq<Option<seq<Value>>>, lo: nat, k: nat, k': nat)
    requires lo <= k <= k' <= |sh| == |fills|
    requires FillCols(sh, fills, lo, k).error.Some?
    ensures FillCols(sh, fills, lo, k') == FillCols(sh, fills, lo, k)
    decreases k'
  {
    if k' > k {
      FillColsStuck(sh, fills, lo, k, k' - 1);
    }
  }

  /** df[col].fillna(df[col].mode()[0]) on one column; None where mode() is empty. */
  function FillColumn(cells: seq<Value>): (r: Option<seq<Value>>)
    ensures r.None? <==> forall i :: 0 <= i < |cells| ==> cells[i].NaN?
    ensures r.Some? ==> |r.value| == |cells|
    ensures r.Some? ==> forall i :: 0 <= i < |cells| ==> !r.value[i].NaN?
    ensures r.Some? ==> forall i :: 0 <= i < |cells| && !cells[i].NaN? ==> r.value[i] == cells[i]
  {
    match Modes.Mode(cells)
    case None => None
    case Some(m) => Some(Modes.FillMissing(cells, m))
  }

  /** The fill of every column of the frame, as the fill loop will compute it. */
  function Fills(sh: seq<Column>): (r: seq<Option<seq<Value>>>)
    ensures |r| == |sh|
  {
    seq(|sh|, j requires 0 <= j < |sh| => FillColumn(sh[j].cells))
  }

  lemma FillsAt(sh: seq<Column>, j: nat)
    requires j < |sh|
    ensures Fills(sh)[j] == FillColumn(sh[j].cells)
  {
  }

  /** The last three columns (all of them when there are fewer) moved to the front in
      their order, the others following in theirs. */
  function MoveLastThree(sh: seq<Column>): seq<Column>
  {
    var m := Clamp(-3, |sh|);
    sh[m..] + sh[..m]
  }

  /** df.pop('client') and insert at position 0: KeyError when there is no such column. */
  function ClientFirst(sh: seq<Column>): (r: Result<seq<Column>, CleanError>)
    ensures r.Failure? <==> "client" !in Names(sh)
  {
    match Find(sh, "client")
    case None => Failure(MissingColumn("client"))
    case Some(k) => Success([sh[k]] + Without(sh, "client"))
  }

  /** With distinct labels, moving 'client' to the front keeps the width and the
      order of the other labels. */
  lemma ClientFirstNames(sh: seq<Column>)
    requires Distinct(Names(sh)) && "client" in Names(sh)
    ensures ClientFirst(sh).Success?
    ensures |ClientFirst(sh).value| == |sh|
    ensures Names(ClientFirst(sh).value) == ["client"] + Filter(Names(sh), NotNamed("client"))
  {
    var k := Find(sh, "client").value;
    var rest := Without(sh, "client");
    NamesWithout(sh, "client");
    NotNamedLength(Names(sh), "client");
    DistinctCountOne(Names(sh), "client");
    NamesConcat([sh[k]], rest);
    assert Names([sh[k]]) == ["client"];
  }

  /** With distinct labels, moving 'client' to the front keeps every column. */
  lemma ClientFirstMembers(sh: seq<Column>, c: Column)
    requires Distinct(Names(sh)) && "client" in Names(sh)
    ensures c in ClientFirst(sh).value <==> c in sh
  {
    var k := Find(sh, "client").value;
    WithoutMembers(sh, "client", c);
    if c in sh && c.name == "client" {
      var i :| 0 <= i < |sh| && sh[i] == c;
      assert Names(sh)[i] == Names(sh)[k];
    }
  }

  /** The positions of the answer columns that are scored (-6:-3) and filled (5:19). */
  function ScoreRange(n: nat): (nat, nat)
  {
    (Clamp(-6, n), Clamp(-3, n))
  }

  function FillRange(n: nat): (nat, nat)
  {
    (Clamp(5, n), Clamp(19, n))
  }

  /** Column j is one of the scored or the filled answers. */
  predicate Answers(n: nat, j: nat)
  {
    ScoreRange(n).0 <= j < ScoreRange(n).1 || FillRange(n).0 <= j < FillRange(n).1
  }

  /** Whether clean_data rewrites the cells of column j: the zip, years and race
      columns by label, the scored and the filled answers by position. */
  predicate Touched(sh: seq<Column>, j: nat)
    requires j < |sh|
  {
    sh[j].name in ["zip_code", "years_at_camp", "race/ethnicity"] || Answers(|sh|, j)
  }

  predicate NoMissing(cells: seq<Value>)
  {
    forall i :: 0 <= i < |cells| ==> !cells[i].NaN?
  }

  /** The first three steps of clean_data: the zip, years and race columns recoded,
      stopping at the first exception. */
  function Recoded(sh: seq<Column>, floatText: real -> string): (r: Cleaned)
    ensures SameLayout(r.sheet, sh)
    ensures forall j :: 0 <= j < |sh| && sh[j].name !in ["zip_code", "years_at_camp", "race/ethnicity"] ==>
      r.sheet[j] == sh[j]
    ensures r.error == Some(MissingColumn("zip_code")) <==> "zip_code" !in Names(sh)
    ensures r.error.None? ==>
      "zip_code" in Names(sh) && "years_at_camp" in Names(sh) && "race/ethnicity" in Names(sh)
  {
    match ZipStep(sh, floatText)
    case Failure(e) => Cleaned(sh, Some(e))
    case Success(s1) =>
      SameLayoutNames(s1, sh);
      match YearsStep(s1, floatText)
      case Failure(e) => Cleaned(s1, Some(e))
      case Success(s2) =>
        SameLayoutNames(s2, sh);
        match RaceStep(s2)
        case Failure(e) => Cleaned(s2, Some(e))
        case Success(s3) => Cleaned(s3, None)
  }

  /** The answer columns of clean_data: the scored ones recoded, then the filled ones
      filled with their mode, stopping at the first column without one. */
  function Answered(s: seq<Column>): (r: Cleaned)
    ensures SameLayout(r.sheet, s)
  {
    var s4 := ScoreCols(s, ScoreRange(|s|).0, ScoreRange(|s|).1);
    FillCols(s4, Fills(s4), FillRange(|s|).0, FillRange(|s|).1)
  }

  /** The answer steps leave every other column alone, raise only for a missing mode,
      and leave no NaN in a filled column. */
  lemma AnsweredFacts(s: seq<Column>)
    ensures var r := Answered(s);
      forall j :: 0 <= j < |s| && !Answers(|s|, j) ==> r.sheet[j] == s[j]
    ensures Answered(s).error.Some? ==> Answered(s).error.value.NoMode?
    ensures var r := Answered(s);
      r.error.None? ==> forall j :: FillRange(|s|).0 <= j < FillRange(|s|).1 ==> NoMissing(r.sheet[j].cells)
  {
    var s4 := ScoreCols(s, ScoreRange(|s|).0, ScoreRange(|s|).1);
    var fills := Fills(s4);
    var lo, hi := FillRange(|s|).0, FillRange(|s|).1;
    FillColsFacts(s4, fills, lo, hi);
    var r := FillCols(s4, fills, lo, hi);
    if r.error.None? {
      forall j | lo <= j < hi
        ensures NoMissing(r.sheet[j].cells)
      {
        FillsAt(s4, j);
      }
    }
  }

  /** clean_data up to and including the mode fill, stopping at the first exception:
      the cells change, the layout does not. */
  function Prepare(sh: seq<Column>, floatText: real -> string): (r: Cleaned)
    ensures SameLayout(r.sheet, sh)
  {
    var c := Recoded(sh, floatText);
    if c.error.Some? then c else Answered(c.sheet)
  }

  /** The preparation changes only the columns it touches. */
  lemma PrepareKeeps(sh: seq<Column>, floatText: real -> string)
    ensures var r := Prepare(sh, floatText);
      forall j :: 0 <= j < |sh| && !Touched(sh, j) ==> r.sheet[j] == sh[j]
  {
    var c := Recoded(sh, floatText);
    if c.error.None? {
      AnsweredFacts(c.sheet);
    }
  }

  /** An exception at the zip column means there is none, and getting through the
      preparation means the zip, years and race columns are all there. */
  lemma PrepareLabels(sh: seq<Column>, floatText: real -> string)
    ensures var r := Prepare(sh, floatText);
      r.error == Some(MissingColumn("zip_code")) <==> "zip_code" !in Names(sh)
    ensures var r := Prepare(sh, floatText);
      r.error.None? ==>
      "zip_code" in Names(sh) && "years_at_camp" in Names(sh) && "race/ethnicity" in Names(sh)
  {
    var c := Recoded(sh, floatText);
    if c.error.None? {
      AnsweredFacts(c.sheet);
    }
  }

  /** A frame that gets through the preparation has no NaN left in a filled answer. */
  lemma PrepareFilled(sh: seq<Column>, floatText: real -> string)
    ensures var r := Prepare(sh, floatText);
      r.error.None? ==>
      forall j :: FillRange(|sh|).0 <= j < FillRange(|sh|).1 ==> NoMissing(r.sheet[j].cells)
  {
    var c := Recoded(sh, floatText);
    if c.error.None? {
      AnsweredFacts(c.sheet);
    }
  }

  /** The end of clean_data: the last three columns, then 'client', moved to the front. */
  function Finish(p: seq<Column>): Cleaned
  {
    var s6 := MoveLastThree(p);
    match ClientFirst(s6)
    case Failure(e) => Cleaned(s6, Some(e))
    case Success(s7) => Cleaned(s7, None)
  }

  /** clean_data: the preparation, then the moves; an exception stops it where it
      was raised. */
  function Clean(sh: seq<Column>, floatText: real -> string): Cleaned
  {
    var p := Prepare(sh, floatText);
    if p.error.Some? then p else Finish(p.sheet)
  }

  /** The labels after the move: the last three first, then the others. */
  lemma MovedNames(p: seq<Column>, sh: seq<Column>)
    requires SameLayout(p, sh) && Distinct(Names(sh))
    ensures var m := Clamp(-3, |sh|);
      Names(MoveLastThree(p)) == Names(sh)[m..] + Names(sh)[..m] &&
      Distinct(Names(MoveLastThree(p)))
  {
    var m := Clamp(-3, |sh|);
    SameLayoutNames(p, sh);
    NamesConcat(p[m..], p[..m]);
    assert Names(p[m..]) == Names(sh)[m..];
    assert Names(p[..m]) == Names(sh)[..m];
    RotatedDistinct(p, m, |sh| - m);
    RotatedAll(p, m);
  }

  /** The moves raise only when there is no 'client'; otherwise the frame keeps its
      width, 'client' comes first, and the other labels follow in the order the move
      left them: the last three first, then the rest. */
  lemma FinishOrder(p: seq<Column>, sh: seq<Column>)
    requires SameLayout(p, sh) && Distinct(Names(sh))
    ensures var r := Finish(p);
      var m := Clamp(-3, |sh|);
      (r.error.None? <==> "client" in Names(sh)) &&
      (r.error.None? ==>
        |r.sheet| == |sh| &&
        Names(r.sheet) == ["client"] + Filter(Names(sh)[m..] + Names(sh)[..m], NotNamed("client")))
  {
    var m := Clamp(-3, |sh|);
    var s6 := MoveLastThree(p);
    MovedNames(p, sh);
    assert "client" in Names(s6) <==> "client" in Names(sh) by {
      assert multiset(Names(s6)) == multiset(Names(sh)) by {
        assert Names(sh) == Names(sh)[..m] + Names(sh)[m..];
      }
    }
    if "client" in Names(s6) {
      ClientFirstNames(s6);
    }
  }

  /** Without an exception the moves keep the columns, only reordered. */
  lemma FinishColumns(p: seq<Column>, sh: seq<Column>, c: Column)
    requires SameLayout(p, sh) && Distinct(Names(sh))
    requires Finish(p).error.None?
    ensures c in Finish(p).sheet <==> c in p
  {
    var m := Clamp(-3, |sh|);
    var s6 := MoveLastThree(p);
    assert p == p[..m] + p[m..];
    assert c in s6 <==> c in p;
    MovedNames(p, sh);
    ClientFirstMembers(s6, c);
  }


  /** clean_data without an exception: 'client' first, then the others in the order
      of the move, none lost. Once the preparation is through, only a missing 'client'
      raises. */
  lemma CleanOrder(sh: seq<Column>, floatText: real -> string)
    requires Distinct(Names(sh))
    ensures var r := Clean(sh, floatText);
      Prepare(sh, floatText).error.None? ==> (r.error.None? <==> "client" in Names(sh))
    ensures var r := Clean(sh, floatText);
      var m := Clamp(-3, |sh|);
      r.error.None? ==>
      |r.sheet| == |sh| &&
      Names(r.sheet) == ["client"] + Filter(Names(sh)[m..] + Names(sh)[..m], NotNamed("client"))
  {
    var p := Prepare(sh, floatText);
    if p.error.None? {
      FinishOrder(p.sheet, sh);
    }
  }

  /** With distinct labels, the column of a prepared frame labelled like column j of
      the input is the prepared column j. */
  lemma PreparedAt(sh: seq<Column>, floatText: real -> string, c: Column, j: nat)
    requires Distinct(Names(sh)) && j < |sh|
    requires c in Prepare(sh, floatText).sheet && c.name == sh[j].name
    ensures c == Prepare(sh, floatText).sheet[j]
  {
    var p := Prepare(sh, floatText).sheet;
    var i :| 0 <= i < |p| && p[i] == c;
    assert Names(sh)[i] == Names(sh)[j];
  }

  /** Without an exception, every column labelled like one of the input's answer
      columns 5..18 has no NaN left. */
  lemma CleanFilled(sh: seq<Column>, floatText: real -> string)
    requires Distinct(Names(sh))
    ensures var r := Clean(sh, floatText);
      r.error.None? ==>
      forall c, j :: c in r.sheet && FillRange(|sh|).0 <= j < FillRange(|sh|).1 && c.name == sh[j].name ==>
        NoMissing(c.cells)
  {
    var r := Clean(sh, floatText);
    if r.error.None? {
      PrepareFilled(sh, floatText);
      forall c, j | c in r.sheet && FillRange(|sh|).0 <= j < FillRange(|sh|).1 && c.name == sh[j].name
        ensures NoMissing(c.cells)
      {
        FinishColumns(Prepare(sh, floatText).sheet, sh, c);
        PreparedAt(sh, floatText, c, j);
      }
    }
  }

  /** Without an exception, a column that clean_data does not rewrite comes out as it
      went in, only moved. */
  lemma CleanKeeps(sh: seq<Column>, floatText: real -> string)
    requires Distinct(Names(sh))
    ensures var r := Clean(sh, floatText);
      r.error.None? ==>
      forall c, j :: c in r.sheet && 0 <= j < |sh| && c.name == sh[j].name && !Touched(sh, j) ==> c == sh[j]
  {
    var r := Clean(sh, floatText);
    if r.error.None? {
      PrepareKeeps(sh, floatText);
      forall c, j | c in r.sheet && 0 <= j < |sh| && c.name == sh[j].name && !Touched(sh, j)
        ensures c == sh[j]
      {
        FinishColumns(Prepare(sh, floatText).sheet, sh, c);
        PreparedAt(sh, floatText, c, j);
      }
    }
  }

  /** The same layout means the same labels. */
  lemma SameLayoutNames(a: seq<Column>, b: seq<Column>)
    requires SameLayout(a, b)
    ensures Names(a) == Names(b)
  {
  }

  /** With distinct labels, a label is found at its own position. */
  lemma FindDistinct(sh: seq<Column>, p: nat)
    requires p < |sh| && Distinct(Names(sh))
    ensures Find(sh, sh[p].name) == Some(p)
  {
    var k := Find(sh, sh[p].name).value;
    assert Names(sh)[k] == Names(sh)[p];
  }

  /** The frame part-way through the move loop: i of the last columns (from position m)
      already moved to the front. */
  function Rotated(sh: seq<Column>, m: nat, i: nat): (r: seq<Column>)
    requires m + i <= |sh|
    ensures |r| == |sh|
  {
    sh[m..m + i] + sh[..m] + sh[m + i..]
  }

  lemma RotatedDistinct(sh: seq<Column>, m: nat, i: nat)
    requires m + i <= |sh| && Distinct(Names(sh))
    ensures Distinct(Names(Rotated(sh, m, i)))
  {
    var t := Rotated(sh, m, i);
    forall a, b | 0 <= a < b < |t|
      ensures Names(t)[a] != Names(t)[b]
    {
      var a' := if a < i then m + a else if a < i + m then a - i else a;
      var b' := if b < i then m + b else if b < i + m then b - i else b;
      assert t[a] == sh[a'] && t[b] == sh[b'];
      assert Names(sh)[a'] != Names(sh)[b'];
    }
  }

  /** One turn of the move loop: pop the column at m + i and insert it at i. */
  lemma RotatedStep(sh: seq<Column>, m: nat, i: nat)
    requires m + i < |sh|
    ensures var t := Rotated(sh, m, i);
      var p := m + i;
      (t[..p] + t[p + 1..])[..i] + [t[p]] + (t[..p] + t[p + 1..])[i..] == Rotated(sh, m, i + 1)
  {
    var t := Rotated(sh, m, i);
    var p := m + i;
    assert t[p] == sh[m + i];
    assert t[..p] == sh[m..m + i] + sh[..m];
    assert t[p + 1..] == sh[m + i + 1..];
    var rest := t[..p] + t[p + 1..];
    assert rest[..i] == sh[m..m + i];
    assert rest[i..] == sh[..m] + sh[m + i + 1..];
    assert sh[m..m + i] + [sh[m + i]] == sh[m..m + i + 1];
  }

  lemma RotatedAll(sh: seq<Column>, m: nat)
    requires m <= |sh|
    ensures Rotated(sh, m, |sh| - m) == sh[m..] + sh[..m]
  {
    assert sh[|sh|..] == [];
  }

  /** df.insert(i, name, df.pop(name)) on a frame with distinct labels. */
  function MoveTo(sh: seq<Column>, name: string, i: nat): (r: seq<Column>)
    requires Distinct(Names(sh)) && name in Names(sh) && i < |sh|
    ensures |r| == |sh| && r[i].name == name
  {
    var k := Find(sh, name).value;
    WithoutAt(sh, k);
    var rest := Without(sh, name);
    rest[..i] + [sh[k]] + rest[i..]
  }

  /** One turn of the move loop: the label of column m + i is popped and inserted at
      i, which advances the rotation by one column. */
  lemma MoveStep(sh: seq<Column>, m: nat, i: nat)
    requires m + i < |sh| && Distinct(Names(sh))
    ensures Distinct(Names(Rotated(sh, m, i))) && sh[m + i].name in Names(Rotated(sh, m, i))
    ensures MoveTo(Rotated(sh, m, i), sh[m + i].name, i) == Rotated(sh, m, i + 1)
  {
    var t := Rotated(sh, m, i);
    var p := m + i;
    assert t[p] == sh[p];
    assert Names(t)[p] == sh[p].name;
    RotatedDistinct(sh, m, i);
    FindDistinct(t, p);
    var w := Without(t, sh[p].name);
    WithoutAt(t, p);
    assert w == t[..p] + t[p + 1..];
    RotatedStep(sh, m, i);
  }

  // ---------------------------------------------------------------- the frame

  /** A DataFrame that rename_columns and clean_data change in place. */
  class Frame {
    var cols: seq<Column>

    constructor(cols0: seq<Column>)
      ensures cols == cols0
    {
      cols := cols0;
    }

    /** rename_columns: df.rename(columns=..., inplace=True). */
    method Rename()
      modifies this
      ensures cols == Relabel(old(cols))
    {
      cols := Relabel(cols);
    }

    /** The score loop of clean_data over the columns -6:-3. With distinct labels,
        df[col] for the label of position j is the column at j. */
    method ScoreAnswers()
      requires Distinct(Names(cols))
      modifies this
      ensures cols == ScoreCols(old(cols), ScoreRange(|old(cols)|).0, ScoreRange(|old(cols)|).1)
    {
      ghost var start := cols;
      var lo, hi := Clamp(-6, |cols|), Clamp(-3, |cols|);
      var j := lo;
      while j < hi
        invariant lo <= j <= hi
        invariant cols == ScoreCols(start, lo, j)
      {
        cols := SetCells(cols, j, MapCells(cols[j].cells, Recode.Score));
        j := j + 1;
      }
    }

    /** The fill loop of clean_data over the columns 5:19: each column's NaNs become its
        mode; a column with nothing but NaN raises KeyError at mode()[0]. With distinct
        labels, df[col] for the label of position j is the column at j. */
    method FillAnswers() returns (err: Option<CleanError>)
      requires Distinct(Names(cols))
      modifies this
      ensures Cleaned(cols, err) == FillCols(old(cols), Fills(old(cols)), FillRange(|old(cols)|).0, FillRange(|old(cols)|).1)
    {
      ghost var start := cols;
      ghost var fills := Fills(cols);
      var t := cols;
      var lo, hi := Clamp(5, |t|), Clamp(19, |t|);
      var j := lo;
      while j < hi
        invariant lo <= j <= hi
        invariant FillCols(start, fills, lo, j) == Cleaned(t, None)
      {
        FillStep(start, lo, j, t);
        var filled := FillColumn(t[j].cells);
        if filled.None? {
          FillColsStuck(start, fills, lo, j + 1, hi);
          cols := t;
          return Some(NoMode(t[j].name));
        }
        t := SetCells(t, j, filled.value);
        j := j + 1;
      }
      cols := t;
      return None;
    }

    /** The move loop of clean_data: each of the last three labels is popped and
        inserted at start_idx, which then moves one place right. */
    method MoveLastToFront()
      requires Distinct(Names(cols))
      modifies this
      ensures cols == MoveLastThree(old(cols))
    {
      ghost var start := cols;
      var t := cols;
      var m := Clamp(-3, |t|);
      var labels := Names(t[m..]);
      var startIdx := 0;
      while startIdx < |labels|
        invariant startIdx <= |labels| == |start| - m
        invariant labels == Names(start[m..])
        invariant t == Rotated(start, m, startIdx)
      {
        MoveStep(start, m, startIdx);
        assert labels[startIdx] == start[m..][startIdx].name;
        t := MoveTo(t, labels[startIdx], startIdx);
        startIdx := startIdx + 1;
      }
      RotatedAll(start, m);
      cols := t;
    }

    /** The first three steps of clean_data, each writing its column back into the frame.
        With distinct labels, df[name] is the one column that carries the label. */
    method RecodeColumns(floatText: real -> string) returns (err: Option<CleanError>)
      requires Distinct(Names(cols))
      modifies this
      ensures Cleaned(cols, err) == Recoded(old(cols), floatText)
    {
      var z := Find(cols, "zip_code");
      if z.None? {
        return Some(MissingColumn("zip_code"));
      }
      cols := SetCells(cols, z.value, MapCells(cols[z.value].cells, v => Recode.ZipCell(v, floatText)));
      var y := Find(cols, "years_at_camp");
      if y.None? {
        return Some(MissingColumn("years_at_camp"));
      }
      var years := ParseYears(cols[y.value].cells, floatText);
      if years.Failure? {
        return Some(years.error);
      }
      cols := SetCells(cols, y.value, years.value);
      var r := Find(cols, "race/ethnicity");
      if r.None? {
        return Some(MissingColumn("race/ethnicity"));
      }
      cols := SetCells(cols, r.value, MapCells(cols[r.value].cells, v => Str(Recode.RaceGroup(Recode.RaceText(v)))));
      return None;
    }

    /** clean_data: zip prefix, years parse, race grouping, scores, mode fill, then the
        last three columns and 'client' moved to the front. The frame is changed step by
        step, so an exception leaves the steps before it done. */
    method CleanData(floatText: real -> string) returns (err: Option<CleanError>)
      requires Distinct(Names(cols))
      modifies this
      ensures Cleaned(cols, err) == Clean(old(cols), floatText)
    {
      ghost var s0 := cols;
      err := RecodeColumns(floatText);
      if err.Some? {
        return;
      }
      SameLayoutNames(cols, s0);
      err := AnswerColumns();
      if err.Some? {
        return;
      }
      SameLayoutNames(cols, s0);
      err := MoveColumns();
    }

    /** The scoring and the fill of clean_data, one after the other. */
    method AnswerColumns() returns (err: Option<CleanError>)
      requires Distinct(Names(cols))
      modifies this
      ensures Cleaned(cols, err) == Answered(old(cols))
    {
      ghost var s0 := cols;
      ScoreAnswers();
      SameLayoutNames(cols, s0);
      err := FillAnswers();
    }

    /** The moves of clean_data: the last three columns to the front, then 'client'. */
    method MoveColumns() returns (err: Option<CleanError>)
      requires Distinct(Names(cols))
      modifies this
      ensures Cleaned(cols, err) == Finish(old(cols))
    {
      MoveLastToFront();
      var c := Find(cols, "client");
      if c.None? {
        return Some(MissingColumn("client"));
      }
      var first := cols[c.value];
      cols := Without(cols, "client");
      cols := [first] + cols;
      return None;
    }
  }
}
