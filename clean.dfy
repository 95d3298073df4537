/** The record-cleaning step `clean` of the daily inspection pipeline: read
    the raw frame, normalise its labels, keep ten columns, drop duplicate
    inspections, drop incomplete rows, cast every column to its type, and
    only then write the cleaned file. Each step is a function on the frame. */
module Cleaning {
  import opened Wrappers
  import opened Scalars
  import opened Sequences
  import opened Frames

  /** The ten columns kept, in the order of the cleaned file. */
  const Kept: seq<string> := [
    "business_id", "business_name", "business_address",
    "business_postal_code", "inspection_date", "inspection_score",
    "inspection_type", "violation_description", "risk_category",
    "current_supervisor_districts"
  ]

  /** The number of kept columns, the width of a projected row. */
  const Width: nat := 10

  /** Positions in a projected row of the columns that are cast to numbers
      or that make up the duplicate key. */
  const BusinessId: nat := 0
  const PostalCode: nat := 3
  const InspectionDate: nat := 4
  const InspectionScore: nat := 5

  /** The only columns whose cast can fail: the rest become strings. */
  const Fallible: set<string> := {Kept[BusinessId], Kept[PostalCode], Kept[InspectionScore]}

  /** The exceptions that abort `clean` before anything is written. */
  datatype CleanError =
    | MissingColumns(names: seq<string>)      // pandas KeyError when selecting the kept columns
    | BadValue(column: string, value: Value)  // ValueError or OverflowError from the cast

  // Step 1: header normalisation

  predicate IsUpper(c: char) {
    'A' <= c <= 'Z'
  }

  function LowerChar(c: char): char {
    if IsUpper(c) then (c as int + 32) as char else c
  }

  /** `col.replace(' ', '_')` */
  function ReplaceSpaces(s: string): string {
    seq(|s|, i requires 0 <= i < |s| => if s[i] == ' ' then '_' else s[i])
  }

  /** `str.lower`, on ASCII letters */
  function Lower(s: string): string {
    seq(|s|, i requires 0 <= i < |s| => LowerChar(s[i]))
  }

  /** A label as the normalisation step leaves it: no space, no capital. */
  predicate IsNormalName(c: string) {
    ' ' !in c && forall i :: 0 <= i < |c| ==> !IsUpper(c[i])
  }

  /** One label after the normalisation step: spaces become underscores and
      capitals their lower-case letters; nothing else changes. */
  function NormaliseName(c: string): (r: string)
    ensures |r| == |c| && IsNormalName(r)
    ensures forall i :: 0 <= i < |c| && c[i] == ' ' ==> r[i] == '_'
    ensures forall i :: 0 <= i < |c| && IsUpper(c[i]) ==> r[i] == c[i] + ('a' - 'A')
    ensures forall i :: 0 <= i < |c| && c[i] != ' ' && !IsUpper(c[i]) ==> r[i] == c[i]
  {
    Lower(ReplaceSpaces(c))
  }

  /** A label that is already normal is left as it is. */
  lemma NormalNameIsFixed(c: string)
    requires IsNormalName(c)
    ensures NormaliseName(c) == c
  {
  }

  /** Normalising twice is normalising once. */
  lemma NormaliseNameIdempotent(c: string)
    ensures NormaliseName(NormaliseName(c)) == NormaliseName(c)
  {
  }

  /** The frame after the two relabelling lines: same rows, every label normal. */
  function NormaliseColumns(f: Frame): (g: Frame)
    ensures g.rows == f.rows && |g.columns| == |f.columns|
    ensures forall i :: 0 <= i < |f.columns| ==> g.columns[i] == NormaliseName(f.columns[i])
    ensures forall c :: c in g.columns ==> IsNormalName(c)
  {
    Frame(seq(|f.columns|, i requires 0 <= i < |f.columns| => NormaliseName(f.columns[i])), f.rows)
  }

  // Step 2: projection onto the kept columns

  /** A kept label names one column only (pandas would select every column
      so labelled). */
  predicate KeptLabelsUnique(columns: seq<string>) {
    forall i, j :: 0 <= i < j < |columns| && columns[i] in Kept ==> columns[i] != columns[j]
  }

  /** The names that are not labels of the frame, in the order asked for. */
  function MissingOf(names: seq<string>, columns: seq<string>): (m: seq<string>)
    ensures forall k :: k in m <==> k in names && k !in columns
    ensures IsSubsequence(m, names)
  {
    if names == [] then []
    else if names[0] in columns then MissingOf(names[1..], columns)
    else
      var m := [names[0]] + MissingOf(names[1..], columns);
      assert m[1..] == MissingOf(names[1..], columns);
      m
  }

  /** The kept cells of one row, in the kept order. */
  function Select(row: Row, columns: seq<string>): (r: Row)
    requires |row| == |columns| && forall k :: k in Kept ==> k in columns
    ensures |r| == |Kept|
  {
    seq(|Kept|, j requires 0 <= j < |Kept| => row[IndexOf(columns, Kept[j])])
  }

  /** `data[columns_to_keep]`: the ten kept columns in the kept order, or the
      KeyError naming every kept label the frame lacks. */
  function Project(f: Frame): (r: Result<Frame, CleanError>)
    requires WellFormed(f) && KeptLabelsUnique(f.columns)
    ensures r.Ok? <==> forall k :: k in Kept ==> k in f.columns
    ensures r.Err? ==> r.error.MissingColumns? && r.error.names != []
    ensures r.Err? ==> forall k :: k in r.error.names <==> k in Kept && k !in f.columns
    ensures r.Ok? ==> r.value.columns == Kept && WellFormed(r.value) && |r.value.rows| == |f.rows|
    ensures r.Ok? ==> forall i, k :: 0 <= i < |f.rows| && k in Kept ==> CellAt(r.value, i, k) == CellAt(f, i, k)
  {
    var missing := MissingOf(Kept, f.columns);
    if missing != [] then
      assert missing[0] in Kept && missing[0] !in f.columns;
      Err(MissingColumns(missing))
    else
      var p := Frame(Kept, seq(|f.rows|, i requires 0 <= i < |f.rows| => Select(f.rows[i], f.columns)));
      ProjectedCells(f, p);
      Ok(p)
  }

  lemma SelectedCell(row: Row, columns: seq<string>, k: string)
    requires |row| == |columns| && forall k :: k in Kept ==> k in columns
    requires k in Kept
    ensures Select(row, columns)[IndexOf(Kept, k)] == row[IndexOf(columns, k)]
  {
    var j := IndexOf(Kept, k);
    assert Kept[j] == k;
  }

  lemma ProjectedShape(f: Frame, p: Frame)
    requires WellFormed(f) && forall k :: k in Kept ==> k in f.columns
    requires p == Frame(Kept, seq(|f.rows|, i requires 0 <= i < |f.rows| => Select(f.rows[i], f.columns)))
    ensures WellFormed(p)
  {
    forall r | r in p.rows ensures |r| == |Kept| {
      var i :| 0 <= i < |p.rows| && p.rows[i] == r;
      assert f.rows[i] in f.rows;
    }
  }

  lemma ProjectedCell(f: Frame, p: Frame, i: nat, k: string)
    requires WellFormed(f) && forall k :: k in Kept ==> k in f.columns
    requires p == Frame(Kept, seq(|f.rows|, i requires 0 <= i < |f.rows| => Select(f.rows[i], f.columns)))
    requires WellFormed(p) && i < |f.rows| && k in Kept
    ensures CellAt(p, i, k) == CellAt(f, i, k)
  {
    assert f.rows[i] in f.rows;
    SelectedCell(f.rows[i], f.columns, k);
  }

  lemma ProjectedCells(f: Frame, p: Frame)
    requires WellFormed(f) && forall k :: k in Kept ==> k in f.columns
    requires p == Frame(Kept, seq(|f.rows|, i requires 0 <= i < |f.rows| => Select(f.rows[i], f.columns)))
    ensures WellFormed(p)
    ensures forall i, k :: 0 <= i < |f.rows| && k in Kept ==> CellAt(p, i, k) == CellAt(f, i, k)
  {
    ProjectedShape(f, p);
    forall i, k | 0 <= i < |f.rows| && k in Kept
      ensures CellAt(p, i, k) == CellAt(f, i, k)
    {
      ProjectedCell(f, p, i, k);
    }
  }

  // Step 3: duplicate elimination on (business_id, inspection_date, inspection_score)

  /** Rows of the projected frame: one cell per kept column. */
  predicate Shaped(rows: seq<Row>) {
    forall r :: r in rows ==> |r| == Width
  }

  type Key = (Cell, Cell, Cell)

  /** The duplicate key of a projected row; a missing cell equals a missing cell. */
  function KeyOf(r: Row): Key
    requires |r| == Width
  {
    (r[BusinessId], r[InspectionDate], r[InspectionScore])
  }

  function Keys(rows: seq<Row>): set<Key>
    requires Shaped(rows)
  {
    set r | r in rows :: KeyOf(r)
  }

  predicate UniqueKeys(rows: seq<Row>)
    requires Shaped(rows)
  {
    forall i, j :: 0 <= i < j < |rows| ==> KeyOf(rows[i]) != KeyOf(rows[j])
  }

  /** The first row, in frame order, with the given key. */
  function FirstWithKey(rows: seq<Row>, k: Key): Option<Row>
    requires Shaped(rows)
  {
    if rows == [] then None
    else if KeyOf(rows[0]) == k then Some(rows[0])
    else FirstWithKey(rows[1..], k)
  }

  /** Keeps each row whose key is neither in `seen` nor on an earlier row. */
  function DedupFrom(rows: seq<Row>, seen: set<Key>): (r: seq<Row>)
    requires Shaped(rows)
    ensures Shaped(r) && |r| <= |rows|
    decreases |rows|
  {
    if rows == [] then []
    else if KeyOf(rows[0]) in seen then DedupFrom(rows[1..], seen)
    else [rows[0]] + DedupFrom(rows[1..], seen + {KeyOf(rows[0])})
  }

  /** `drop_duplicates(subset=[...])`, keeping the first row of each key. */
  function DropDuplicates(rows: seq<Row>): (r: seq<Row>)
    requires Shaped(rows)
    ensures Shaped(r) && |r| <= |rows|
  {
    DedupFrom(rows, {})
  }

  lemma {:induction false} UniqueKeysCons(x: Row, s: seq<Row>)
    requires |x| == Width && Shaped(s) && UniqueKeys(s)
    requires forall y :: y in s ==> KeyOf(y) != KeyOf(x)
    ensures Shaped([x] + s) && UniqueKeys([x] + s)
  {
    var xs := [x] + s;
    forall i, j | 0 <= i < j < |xs| ensures KeyOf(xs[i]) != KeyOf(xs[j]) {
      assert xs[j] == s[j - 1];
      if i > 0 {
        assert xs[i] == s[i - 1];
      }
    }
  }

  lemma {:induction false} DedupFromFirstWins(rows: seq<Row>, seen: set<Key>)
    requires Shaped(rows)
    ensures forall x :: x in DedupFrom(rows, seen) ==> KeyOf(x) !in seen && FirstWithKey(rows, KeyOf(x)) == Some(x)
    decreases |rows|
  {
    if rows != [] {
      var k := KeyOf(rows[0]);
      if k in seen {
        DedupFromFirstWins(rows[1..], seen);
      } else {
        DedupFromFirstWins(rows[1..], seen + {k});
      }
    }
  }

  lemma {:induction false} DedupFromUnique(rows: seq<Row>, seen: set<Key>)
    requires Shaped(rows)
    ensures UniqueKeys(DedupFrom(rows, seen))
    decreases |rows|
  {
    if rows != [] {
      var k := KeyOf(rows[0]);
      if k in seen {
        DedupFromUnique(rows[1..], seen);
      } else {
        var rest := DedupFrom(rows[1..], seen + {k});
        DedupFromUnique(rows[1..], seen + {k});
        DedupFromFirstWins(rows[1..], seen + {k});
        UniqueKeysCons(rows[0], rest);
      }
    }
  }

  lemma KeysCons(x: Row, s: seq<Row>)
    requires |x| == Width && Shaped(s)
    ensures Shaped([x] + s) && Keys([x] + s) == {KeyOf(x)} + Keys(s)
  {
    assert forall r :: r in [x] + s <==> r == x || r in s;
  }

  lemma {:induction false} DedupFromKeys(rows: seq<Row>, seen: set<Key>)
    requires Shaped(rows)
    ensures Keys(DedupFrom(rows, seen)) == Keys(rows) - seen
    decreases |rows|
  {
    if rows != [] {
      var k := KeyOf(rows[0]);
      assert rows == [rows[0]] + rows[1..];
      KeysCons(rows[0], rows[1..]);
      if k in seen {
        DedupFromKeys(rows[1..], seen);
      } else {
        var rest := DedupFrom(rows[1..], seen + {k});
        DedupFromKeys(rows[1..], seen + {k});
        KeysCons(rows[0], rest);
      }
    }
  }

  lemma {:induction false} DedupFromSubsequence(rows: seq<Row>, seen: set<Key>)
    requires Shaped(rows)
    ensures IsSubsequence(DedupFrom(rows, seen), rows)
    decreases |rows|
  {
    if rows != [] {
      var k := KeyOf(rows[0]);
      if k in seen {
        DedupFromSubsequence(rows[1..], seen);
      } else {
        var r := DedupFrom(rows, seen);
        DedupFromSubsequence(rows[1..], seen + {k});
        assert r[1..] == DedupFrom(rows[1..], seen + {k});
      }
    }
  }

  /** After the step no two rows share a key. */
  lemma DropDuplicatesKeysUnique(rows: seq<Row>)
    requires Shaped(rows)
    ensures UniqueKeys(DropDuplicates(rows))
  {
    DedupFromUnique(rows, {});
  }

  /** Every surviving row is the first row of the input with its key. */
  lemma DropDuplicatesFirstWins(rows: seq<Row>)
    requires Shaped(rows)
    ensures forall x :: x in DropDuplicates(rows) ==> FirstWithKey(rows, KeyOf(x)) == Some(x)
  {
    DedupFromFirstWins(rows, {});
  }

  /** No key is lost: every key of the input has its surviving row. */
  lemma DropDuplicatesKeepsEveryKey(rows: seq<Row>)
    requires Shaped(rows)
    ensures Keys(DropDuplicates(rows)) == Keys(rows)
  {
    DedupFromKeys(rows, {});
  }

  /** The survivors keep their input order. */
  lemma DropDuplicatesSubsequence(rows: seq<Row>)
    requires Shaped(rows)
    ensures IsSubsequence(DropDuplicates(rows), rows)
  {
    DedupFromSubsequence(rows, {});
  }

  /** The position of the first row with key k, or |rows| when none has it. */
  function KeyPosition(rows: seq<Row>, k: Key): (p: nat)
    requires Shaped(rows)
    ensures p <= |rows|
    ensures p < |rows| ==> KeyOf(rows[p]) == k
    ensures forall i :: 0 <= i < p ==> KeyOf(rows[i]) != k
  {
    if rows == [] then 0
    else if KeyOf(rows[0]) == k then 0
    else 1 + KeyPosition(rows[1..], k)
  }

  /** The rows of r come in the order in which their keys first occur in rows. */
  predicate InKeyOrder(r: seq<Row>, rows: seq<Row>)
    requires Shaped(r) && Shaped(rows)
  {
    forall i, j :: 0 <= i < j < |r| ==> KeyPosition(rows, KeyOf(r[i])) < KeyPosition(rows, KeyOf(r[j]))
  }

  /** Rows whose keys differ from that of rows[0] keep their key order
      when rows[0] is put back, and rows[0] can go in front of them. */
  lemma KeyOrderCons(rows: seq<Row>, r: seq<Row>)
    requires rows != [] && Shaped(rows) && Shaped(r)
    requires forall x :: x in r ==> KeyOf(x) != KeyOf(rows[0])
    requires InKeyOrder(r, rows[1..])
    ensures InKeyOrder(r, rows) && InKeyOrder([rows[0]] + r, rows)
  {
    var t := rows[1..];
    forall i | 0 <= i < |r| ensures KeyPosition(rows, KeyOf(r[i])) == 1 + KeyPosition(t, KeyOf(r[i])) {
      assert r[i] in r;
    }
    var r' := [rows[0]] + r;
    forall i, j | 0 <= i < j < |r'| ensures KeyPosition(rows, KeyOf(r'[i])) < KeyPosition(rows, KeyOf(r'[j])) {
      assert r'[j] == r[j - 1];
      if i > 0 {
        assert r'[i] == r[i - 1];
      }
    }
  }

  lemma {:induction false} DedupFromKeyOrder(rows: seq<Row>, seen: set<Key>)
    requires Shaped(rows)
    ensures InKeyOrder(DedupFrom(rows, seen), rows)
    decreases |rows|
  {
    if rows != [] {
      var k, t := KeyOf(rows[0]), rows[1..];
      var seen' := if k in seen then seen else seen + {k};
      var rest := DedupFrom(t, seen');
      DedupFromKeyOrder(t, seen');
      DedupFromFirstWins(t, seen');
      KeyOrderCons(rows, rest);
    }
  }

  /** The survivors come in the order in which their keys first occur. */
  lemma DropDuplicatesKeyOrder(rows: seq<Row>)
    requires Shaped(rows)
    ensures InKeyOrder(DropDuplicates(rows), rows)
  {
    DedupFromKeyOrder(rows, {});
  }

  // Step 4: null elimination

  predicate AllComplete(rows: seq<Row>) {
    forall r :: r in rows ==> Complete(r)
  }

  /** `dropna()`: the rows with no missing cell, in order. */
  function DropNulls(rows: seq<Row>): (r: seq<Row>)
    ensures forall x :: x in r <==> x in rows && Complete(x)
    ensures forall x :: multiset(r)[x] == if Complete(x) then multiset(rows)[x] else 0
    ensures |r| <= |rows|
  {
    if rows == [] then []
    else
      assert rows == [rows[0]] + rows[1..];
      if Complete(rows[0]) then [rows[0]] + DropNulls(rows[1..])
      else DropNulls(rows[1..])
  }

  lemma {:induction false} DropNullsSubsequence(rows: seq<Row>)
    ensures IsSubsequence(DropNulls(rows), rows)
  {
    if rows != [] {
      DropNullsSubsequence(rows[1..]);
      if Complete(rows[0]) {
        assert DropNulls(rows)[1..] == DropNulls(rows[1..]);
      }
    }
  }

  // Step 5: the casts of `astype`

  /** A row of the cleaned file, each field of its declared type. */
  datatype Inspection = Inspection(
    businessId: int,
    businessName: Str,
    businessAddress: Str,
    businessPostalCode: int,
    inspectionDate: Str,
    inspectionScore: real,
    inspectionType: Str,
    violationDescription: Str,
    riskCategory: Str,
    currentSupervisorDistricts: Str)

  /** Whether the cast of kept column j accepts v. */
  predicate Castable(j: nat, v: Value) {
    if j == BusinessId || j == PostalCode then ToInt64(v).Some?
    else if j == InspectionScore then ToFloat64(v).Some?
    else true
  }

  predicate CastableRow(x: Row)
    requires |x| == Width && Complete(x)
  {
    forall j :: 0 <= j < Width ==> Castable(j, x[j].value)
  }

  /** `rec` holds, field by field, the cast of the cell of `x` under that
      field's column. */
  predicate Typed(x: Row, rec: Inspection)
    requires |x| == Width && Complete(x)
  {
    && ToInt64(x[BusinessId].value) == Some(rec.businessId)
    && ToStr(x[1].value) == rec.businessName
    && ToStr(x[2].value) == rec.businessAddress
    && ToInt64(x[PostalCode].value) == Some(rec.businessPostalCode)
    && ToStr(x[InspectionDate].value) == rec.inspectionDate
    && ToFloat64(x[InspectionScore].value) == Some(rec.inspectionScore)
    && ToStr(x[6].value) == rec.inspectionType
    && ToStr(x[7].value) == rec.violationDescription
    && ToStr(x[8].value) == rec.riskCategory
    && ToStr(x[9].value) == rec.currentSupervisorDistricts
  }

  function Cast(x: Row): (rec: Inspection)
    requires |x| == Width && Complete(x) && CastableRow(x)
    ensures Typed(x, rec)
  {
    assert Castable(BusinessId, x[BusinessId].value) && Castable(PostalCode, x[PostalCode].value);
    assert Castable(InspectionScore, x[InspectionScore].value);
    Inspection(
      ToInt64(x[BusinessId].value).value, ToStr(x[1].value), ToStr(x[2].value),
      ToInt64(x[PostalCode].value).value, ToStr(x[InspectionDate].value),
      ToFloat64(x[InspectionScore].value).value, ToStr(x[6].value),
      ToStr(x[7].value), ToStr(x[8].value), ToStr(x[9].value))
  }

  /** The first value of column j, in row order, that its cast rejects. */
  function FirstRejected(rows: seq<Row>, j: nat): (r: Option<Value>)
    requires Shaped(rows) && AllComplete(rows) && j < Width
    ensures r.None? <==> forall x: Row :: x in rows ==> Castable(j, x[j].value)
    ensures r.Some? ==> !Castable(j, r.value) && exists x :: x in rows && x[j] == Some(r.value)
  {
    if rows == [] then None
    else if !Castable(j, rows[0][j].value) then Some(rows[0][j].value)
    else FirstRejected(rows[1..], j)
  }

  /** Column j' holds v, a value its cast rejects, and every column from j
      up to j' casts in every row: j' is the first failing column from j on. */
  predicate FailsFirstAt(rows: seq<Row>, j: nat, j': nat, v: Value)
    requires Shaped(rows) && AllComplete(rows) && j' < Width
  {
    && !Castable(j', v)
    && (exists x: Row :: x in rows && x[j'] == Some(v))
    && (forall x: Row, i :: x in rows && j <= i < j' ==> Castable(i, x[i].value))
  }

  lemma FailsFirstAtExtend(rows: seq<Row>, j: nat, j': nat, v: Value)
    requires Shaped(rows) && AllComplete(rows) && j < j' < Width
    requires forall x: Row :: x in rows ==> Castable(j, x[j].value)
    requires FailsFirstAt(rows, j + 1, j', v)
    ensures FailsFirstAt(rows, j, j', v)
  {
  }

  /** `astype` casts column by column in the kept order and raises on the
      first column holding a value its cast rejects. */
  function FirstFailure(rows: seq<Row>, j: nat): (e: Option<CleanError>)
    requires Shaped(rows) && AllComplete(rows) && j <= Width
    ensures e.None? <==> forall x: Row, j' :: x in rows && j <= j' < Width ==> Castable(j', x[j'].value)
    ensures e.Some? ==> e.value.BadValue? && e.value.column in Fallible
    ensures e.Some? ==> exists j' :: j <= j' < Width && Kept[j'] == e.value.column && FailsFirstAt(rows, j, j', e.value.value)
    decreases Width - j
  {
    if j == Width then None
    else
      match FirstRejected(rows, j)
      case Some(v) =>
        assert FailsFirstAt(rows, j, j, v);
        Some(BadValue(Kept[j], v))
      case None =>
        var e := FirstFailure(rows, j + 1);
        if e.None? then e
        else
          var j' :| j + 1 <= j' < Width && Kept[j'] == e.value.column && FailsFirstAt(rows, j + 1, j', e.value.value);
          FailsFirstAtExtend(rows, j, j', e.value.value);
          e
  }

  function CastAll(rows: seq<Row>): (out: seq<Inspection>)
    requires Shaped(rows) && AllComplete(rows)
    requires forall x :: x in rows ==> CastableRow(x)
    ensures |out| == |rows| && forall i :: 0 <= i < |rows| ==> Typed(rows[i], out[i])
  {
    seq(|rows|, i requires 0 <= i < |rows| => Cast(rows[i]))
  }

  /** `data.astype(data_types)`: every row cast field by field, or the error
      of the first column that holds a value its cast rejects. */
  function Coerce(rows: seq<Row>): (r: Result<seq<Inspection>, CleanError>)
    requires Shaped(rows) && AllComplete(rows)
    ensures r.Ok? <==> forall x :: x in rows ==> CastableRow(x)
    ensures r.Ok? ==> |r.value| == |rows| && forall i :: 0 <= i < |rows| ==> Typed(rows[i], r.value[i])
    ensures r.Err? ==> r.error.BadValue? && r.error.column in Fallible
    ensures r.Err? ==> exists j :: 0 <= j < Width && Kept[j] == r.error.column && FailsFirstAt(rows, 0, j, r.error.value)
  {
    match FirstFailure(rows, 0)
    case Some(e) => Err(e)
    case None => Ok(CastAll(rows))
  }

  // The chain

  /** Steps 1 to 4: normalise, project, drop duplicates, drop incomplete rows. */
  function Prepare(f: Frame): (r: Result<Frame, CleanError>)
    requires WellFormed(f) && KeptLabelsUnique(NormaliseColumns(f).columns)
    ensures r.Ok? <==> forall k :: k in Kept ==> k in NormaliseColumns(f).columns
    ensures r.Err? ==> r.error.MissingColumns?
    ensures r.Ok? ==> r.value.columns == Kept && Shaped(r.value.rows) && AllComplete(r.value.rows)
  {
    var p :- Project(NormaliseColumns(f));
    Ok(Frame(Kept, DropNulls(DropDuplicates(p.rows))))
  }

  /** `clean` up to the write: the cleaned rows, or the exception raised. */
  function Clean(f: Frame): (r: Result<seq<Inspection>, CleanError>)
    requires WellFormed(f) && KeptLabelsUnique(NormaliseColumns(f).columns)
    ensures (r.Err? && r.error.MissingColumns?) <==> exists k :: k in Kept && k !in NormaliseColumns(f).columns
    ensures r.Err? && r.error.BadValue? ==> r.error.column in Fallible
    ensures r.Err? && r.error.BadValue? ==> Prepare(f).Ok? && r == Coerce(Prepare(f).value.rows)
    ensures r.Ok? <==> Prepare(f).Ok? && forall x :: x in Prepare(f).value.rows ==> CastableRow(x)
    ensures r.Ok? ==> |r.value| == |Prepare(f).value.rows|
    ensures r.Ok? ==> forall i :: 0 <= i < |r.value| ==> Typed(Prepare(f).value.rows[i], r.value[i])
  {
    var p :- Prepare(f);
    Coerce(p.rows)
  }

  /** `clean` with its final write: `file` is what the cleaned file held
      before the call, the result what it holds after. The write comes last,
      so a call that raises leaves the file as it was. */
  function CleanTask(f: Frame, file: Option<seq<Inspection>>): (after: Option<seq<Inspection>>)
    requires WellFormed(f) && KeptLabelsUnique(NormaliseColumns(f).columns)
    ensures (exists k :: k in Kept && k !in NormaliseColumns(f).columns) ==> after == file
    ensures Prepare(f).Ok? && (exists x :: x in Prepare(f).value.rows && !CastableRow(x)) ==> after == file
    ensures Clean(f).Ok? ==> after == Some(Clean(f).value)
  {
    match Clean(f)
    case Ok(out) => Some(out)
    case Err(_) => file
  }
}
