/** Properties of the whole `clean` chain: what the prepared and the cleaned
    rows promise, what the order of the steps implies, and that the first
    four steps are idempotent. */
module CleanProperties {
  import opened Wrappers
  import opened Scalars
  import opened Sequences
  import opened Frames
  import opened Cleaning

  // Unique keys survive deleting rows

  lemma UniqueKeysTail(b: seq<Row>)
    requires b != [] && Shaped(b) && UniqueKeys(b)
    ensures Shaped(b[1..]) && UniqueKeys(b[1..])
    ensures forall y :: y in b[1..] ==> KeyOf(y) != KeyOf(b[0])
  {
    forall i, j | 0 <= i < j < |b| - 1 ensures KeyOf(b[1..][i]) != KeyOf(b[1..][j]) {
      assert b[1..][i] == b[i + 1] && b[1..][j] == b[j + 1];
    }
    forall y | y in b[1..] ensures KeyOf(y) != KeyOf(b[0]) {
      var m :| 0 <= m < |b| - 1 && b[1..][m] == y;
      assert b[m + 1] == y;
    }
  }

  lemma {:induction false} UniqueKeysSubsequence(a: seq<Row>, b: seq<Row>)
    requires IsSubsequence(a, b) && Shaped(b) && UniqueKeys(b)
    ensures Shaped(a) && UniqueKeys(a)
    decreases |b|
  {
    SubsequenceBounds(a, b);
    if a != [] {
      UniqueKeysTail(b);
      if a[0] == b[0] && IsSubsequence(a[1..], b[1..]) {
        UniqueKeysSubsequence(a[1..], b[1..]);
        SubsequenceBounds(a[1..], b[1..]);
        UniqueKeysCons(a[0], a[1..]);
        assert a == [a[0]] + a[1..];
      } else {
        UniqueKeysSubsequence(a, b[1..]);
      }
    }
  }

  // Steps 1 to 4 together

  /** The rows left after dropping duplicates and incomplete rows have
      pairwise distinct keys, no missing cell, and are the projected input
      rows with some deleted and the order kept. */
  lemma PrepareGuarantees(f: Frame)
    requires WellFormed(f) && KeptLabelsUnique(NormaliseColumns(f).columns) && Prepare(f).Ok?
    ensures UniqueKeys(Prepare(f).value.rows)
    ensures forall x :: x in Prepare(f).value.rows ==> Complete(x)
    ensures IsSubsequence(Prepare(f).value.rows, Project(NormaliseColumns(f)).value.rows)
    ensures |Prepare(f).value.rows| <= |f.rows|
  {
    var projected := Project(NormaliseColumns(f)).value.rows;
    var deduplicated := DropDuplicates(projected);
    DropDuplicatesKeysUnique(projected);
    DropDuplicatesSubsequence(projected);
    DropNullsSubsequence(deduplicated);
    UniqueKeysSubsequence(DropNulls(deduplicated), deduplicated);
    SubsequenceTransitive(DropNulls(deduplicated), deduplicated, projected);
    SubsequenceBounds(DropNulls(deduplicated), projected);
  }

  // The order of the steps

  /** Duplicates are dropped before incomplete rows: when the first row of a
      key has a missing cell, the key vanishes, complete later rows with the
      same key notwithstanding. */
  lemma FirstRowWithNullLosesKey(rows: seq<Row>, k: Key)
    requires Shaped(rows)
    requires FirstWithKey(rows, k).Some? && !Complete(FirstWithKey(rows, k).value)
    ensures k !in Keys(DropNulls(DropDuplicates(rows)))
  {
    DropDuplicatesFirstWins(rows);
  }

  /** The same, for the whole frame: the key of a projected row is absent
      from the prepared rows when its first row is incomplete. */
  lemma PrepareLosesKeyOfIncompleteFirstRow(f: Frame, k: Key)
    requires WellFormed(f) && KeptLabelsUnique(NormaliseColumns(f).columns) && Prepare(f).Ok?
    requires FirstWithKey(Project(NormaliseColumns(f)).value.rows, k).Some?
    requires !Complete(FirstWithKey(Project(NormaliseColumns(f)).value.rows, k).value)
    ensures k !in Keys(Prepare(f).value.rows)
  {
    FirstRowWithNullLosesKey(Project(NormaliseColumns(f)).value.rows, k);
  }

  /** Two rows with one key, the first of them incomplete: neither
      survives, however complete the second is. */
  lemma LaterCompleteRowDoesNotRescueKey(first: Row, later: Row)
    requires |first| == Width && |later| == Width
    requires KeyOf(first) == KeyOf(later) && !Complete(first)
    ensures DropNulls(DropDuplicates([first, later])) == []
  {
    var k := KeyOf(first);
    assert [first, later][1..] == [later] && {} + {k} == {k};
    calc {
      DropDuplicates([first, later]);
      DedupFrom([first, later], {});
      [first] + DedupFrom([later], {k});
      { assert KeyOf(later) in {k}; }
      [first] + DedupFrom([], {k});
      [first];
    }
  }

  // Idempotence of steps 1 to 4

  /** Lower-case letters and underscores only. */
  predicate LowerSnake(c: string) {
    forall ch :: ch in c ==> 'a' <= ch <= 'z' || ch == '_'
  }

  lemma LowerSnakeIsNormal(c: string)
    requires LowerSnake(c)
    ensures IsNormalName(c)
  {
    forall i | 0 <= i < |c| ensures !IsUpper(c[i]) {
      assert c[i] in c;
    }
  }

  /** The kept labels, checked in two halves to keep each proof small. */
  lemma KeptNamesAreLowerSnake()
    ensures forall j :: 0 <= j < Width ==> LowerSnake(Kept[j])
  {
    FirstKeptNamesAreLowerSnake();
    LastKeptNamesAreLowerSnake();
  }

  lemma FirstKeptNamesAreLowerSnake()
    ensures forall j :: 0 <= j < 5 ==> LowerSnake(Kept[j])
  {
  }

  lemma LastKeptNamesAreLowerSnake()
    ensures forall j :: 5 <= j < Width ==> LowerSnake(Kept[j])
  {
  }

  lemma KeptNamesAreNormal()
    ensures forall j :: 0 <= j < |Kept| ==> NormaliseName(Kept[j]) == Kept[j]
  {
    forall j | 0 <= j < |Kept| ensures NormaliseName(Kept[j]) == Kept[j] {
      KeptNamesAreLowerSnake();
      LowerSnakeIsNormal(Kept[j]);
      NormalNameIsFixed(Kept[j]);
    }
  }

  lemma KeptNamesDistinct()
    ensures forall i, j :: 0 <= i < j < |Kept| ==> Kept[i] != Kept[j]
  {
  }

  lemma NormaliseKeptIsIdentity(rows: seq<Row>)
    ensures NormaliseColumns(Frame(Kept, rows)) == Frame(Kept, rows)
  {
    KeptNamesAreNormal();
    var g := NormaliseColumns(Frame(Kept, rows));
    assert g.columns == Kept;
  }

  /** Each kept label is found at its own position. */
  lemma KeptIndex(j: nat)
    requires j < Width
    ensures Kept[j] in Kept && IndexOf(Kept, Kept[j]) == j
  {
    KeptNamesDistinct();
    var k := IndexOf(Kept, Kept[j]);
    assert Kept[k] == Kept[j];
  }

  lemma RowsPointwiseEqual(x: Row, y: Row)
    requires |x| == |y| && forall j :: 0 <= j < |x| ==> x[j] == y[j]
    ensures x == y
  {
  }

  lemma ProjectKeptIsIdentity(rows: seq<Row>)
    requires Shaped(rows)
    ensures WellFormed(Frame(Kept, rows)) && KeptLabelsUnique(Kept)
    ensures Project(Frame(Kept, rows)) == Ok(Frame(Kept, rows))
  {
    KeptNamesDistinct();
    var f := Frame(Kept, rows);
    var r := Project(f);
    forall i | 0 <= i < |rows| ensures r.value.rows[i] == rows[i] {
      var x, y := r.value.rows[i], rows[i];
      assert x in r.value.rows && y in rows;
      assert |x| == |y| == Width;
      forall j | 0 <= j < Width ensures x[j] == y[j] {
        KeptIndex(j);
        assert CellAt(r.value, i, Kept[j]) == CellAt(f, i, Kept[j]);
      }
      RowsPointwiseEqual(x, y);
    }
    assert r.value.rows == rows;
  }

  lemma {:induction false} DedupFromUniqueIsIdentity(rows: seq<Row>, seen: set<Key>)
    requires Shaped(rows) && UniqueKeys(rows) && Keys(rows) !! seen
    ensures DedupFrom(rows, seen) == rows
    decreases |rows|
  {
    if rows != [] {
      assert KeyOf(rows[0]) in Keys(rows);
      UniqueKeysTail(rows);
      KeysCons(rows[0], rows[1..]);
      assert rows == [rows[0]] + rows[1..];
      assert KeyOf(rows[0]) !in Keys(rows[1..]);
      DedupFromUniqueIsIdentity(rows[1..], seen + {KeyOf(rows[0])});
    }
  }

  lemma {:induction false} DropNullsCompleteIsIdentity(rows: seq<Row>)
    requires AllComplete(rows)
    ensures DropNulls(rows) == rows
  {
    if rows != [] {
      DropNullsCompleteIsIdentity(rows[1..]);
      assert rows == [rows[0]] + rows[1..];
    }
  }

  /** A frame that already has the kept header goes through steps 1 and 2
      unchanged. */
  lemma PrepareKeptFrame(rows: seq<Row>)
    requires Shaped(rows)
    ensures WellFormed(Frame(Kept, rows)) && KeptLabelsUnique(NormaliseColumns(Frame(Kept, rows)).columns)
    ensures Prepare(Frame(Kept, rows)) == Ok(Frame(Kept, DropNulls(DropDuplicates(rows))))
  {
    NormaliseKeptIsIdentity(rows);
    ProjectKeptIsIdentity(rows);
  }

  /** Rows with the kept header, distinct keys and no missing cell are left
      as they are by steps 1 to 4. */
  lemma PrepareFixedPoint(rows: seq<Row>)
    requires Shaped(rows) && UniqueKeys(rows) && AllComplete(rows)
    ensures WellFormed(Frame(Kept, rows)) && KeptLabelsUnique(NormaliseColumns(Frame(Kept, rows)).columns)
    ensures Prepare(Frame(Kept, rows)) == Ok(Frame(Kept, rows))
  {
    PrepareKeptFrame(rows);
    DedupFromUniqueIsIdentity(rows, {});
    DropNullsCompleteIsIdentity(rows);
  }

  /** Re-running steps 1 to 4 on their own output changes nothing. */
  lemma PrepareIdempotent(f: Frame)
    requires WellFormed(f) && KeptLabelsUnique(NormaliseColumns(f).columns) && Prepare(f).Ok?
    ensures WellFormed(Prepare(f).value) && KeptLabelsUnique(NormaliseColumns(Prepare(f).value).columns)
    ensures Prepare(Prepare(f).value) == Prepare(f)
  {
    PrepareGuarantees(f);
    PrepareFixedPoint(Prepare(f).value.rows);
  }

  // The cleaned rows

  /** Each cleaned row is, field by field, the cast of one prepared row, in
      order; so there are at most as many as input rows. */
  lemma CleanTracesInput(f: Frame)
    requires WellFormed(f) && KeptLabelsUnique(NormaliseColumns(f).columns) && Clean(f).Ok?
    ensures Prepare(f).Ok? && |Clean(f).value| == |Prepare(f).value.rows| <= |f.rows|
    ensures IsSubsequence(Prepare(f).value.rows, Project(NormaliseColumns(f)).value.rows)
    ensures forall i :: 0 <= i < |Clean(f).value| ==> Typed(Prepare(f).value.rows[i], Clean(f).value[i])
  {
    PrepareGuarantees(f);
  }

  /** The key of a cleaned row, after the casts. */
  function TypedKey(rec: Inspection): (int, Str, real) {
    (rec.businessId, rec.inspectionDate, rec.inspectionScore)
  }

  /** Key columns hold the kind of value the CSV reader gives a column of
      integers, of dates and of scores: ids are integers, dates are text,
      and the scores are all floats or all integers. */
  predicate NativeKeyCells(rows: seq<Row>)
    requires Shaped(rows)
  {
    && (forall x: Row :: x in rows ==>
          && (x[BusinessId].None? || x[BusinessId].value.Int?)
          && (x[InspectionDate].None? || x[InspectionDate].value.Text?))
    && (|| (forall x: Row :: x in rows ==> x[InspectionScore].None? || x[InspectionScore].value.Float?)
        || (forall x: Row :: x in rows ==> x[InspectionScore].None? || x[InspectionScore].value.Int?))
  }

  /** Two rows with native key cells, their scores of one kind, whose
      records share a typed key, share their key. */
  lemma NativeKeysAgree(x: Row, y: Row, rx: Inspection, ry: Inspection)
    requires |x| == Width && Complete(x) && Typed(x, rx)
    requires |y| == Width && Complete(y) && Typed(y, ry)
    requires x[BusinessId].value.Int? && x[InspectionDate].value.Text?
    requires y[BusinessId].value.Int? && y[InspectionDate].value.Text?
    requires || (x[InspectionScore].value.Float? && y[InspectionScore].value.Float?)
             || (x[InspectionScore].value.Int? && y[InspectionScore].value.Int?)
    requires TypedKey(rx) == TypedKey(ry)
    ensures KeyOf(x) == KeyOf(y)
  {
  }

  /** When the key columns hold native values, no two cleaned rows share
      (business_id, inspection_date, inspection_score) after the casts. */
  lemma CleanTypedKeysUnique(f: Frame)
    requires WellFormed(f) && KeptLabelsUnique(NormaliseColumns(f).columns) && Clean(f).Ok?
    requires NativeKeyCells(Project(NormaliseColumns(f)).value.rows)
    ensures forall i, j :: 0 <= i < j < |Clean(f).value| ==> TypedKey(Clean(f).value[i]) != TypedKey(Clean(f).value[j])
  {
    CleanTracesInput(f);
    PrepareGuarantees(f);
    var rows := Prepare(f).value.rows;
    var out := Clean(f).value;
    SubsequenceBounds(rows, Project(NormaliseColumns(f)).value.rows);
    forall i, j | 0 <= i < j < |out| ensures TypedKey(out[i]) != TypedKey(out[j]) {
      assert rows[i] in rows && rows[j] in rows;
      if TypedKey(out[i]) == TypedKey(out[j]) {
        NativeKeysAgree(rows[i], rows[j], out[i], out[j]);
        assert false;
      }
    }
  }

  lemma LeadingZeroIsIgnored()
    ensures ToInt64(Text("1")) == Some(1) && ToInt64(Text("01")) == Some(1)
  {
  }

  /** Without that, distinct raw keys can meet after the casts. A
      business_id column holding text (as the CSV reader leaves a column one
      of whose cells is not a number) has "1" in one row and "01" in
      another with the same date and score: both rows survive steps 1 to 4,
      and the casts turn both into business 1 with that date and score. */
  lemma TypedKeysMayRepeat(r1: Row, r2: Row)
    requires |r1| == Width && Complete(r1) && CastableRow(r1) && r1[BusinessId] == Some(Text("1"))
    requires |r2| == Width && Complete(r2) && CastableRow(r2) && r2[BusinessId] == Some(Text("01"))
    requires r2[InspectionDate] == r1[InspectionDate] && r2[InspectionScore] == r1[InspectionScore]
    ensures var f := Frame(Kept, [r1, r2]);
            && WellFormed(f) && KeptLabelsUnique(NormaliseColumns(f).columns)
            && Clean(f).Ok? && |Clean(f).value| == 2
            && TypedKey(Clean(f).value[0]) == TypedKey(Clean(f).value[1])
  {
    var rows := [r1, r2];
    assert UniqueKeys(rows) by {
      assert "1" != "01";
    }
    LeadingZeroIsIgnored();
    CleanKeptFrame(rows);
    SameKeyCellsSameTypedKey(r1, r2);
  }

  /** Rows that steps 1 to 4 leave alone go straight to the casts. */
  lemma CleanKeptFrame(rows: seq<Row>)
    requires Shaped(rows) && UniqueKeys(rows) && AllComplete(rows)
    ensures WellFormed(Frame(Kept, rows)) && KeptLabelsUnique(NormaliseColumns(Frame(Kept, rows)).columns)
    ensures Clean(Frame(Kept, rows)) == Coerce(rows)
  {
    PrepareFixedPoint(rows);
  }

  /** Two castable rows whose key cells cast to the same values give two
      cleaned rows with the same key. */
  lemma SameKeyCellsSameTypedKey(r1: Row, r2: Row)
    requires |r1| == Width && Complete(r1) && CastableRow(r1)
    requires |r2| == Width && Complete(r2) && CastableRow(r2)
    requires ToInt64(r1[BusinessId].value) == ToInt64(r2[BusinessId].value)
    requires r1[InspectionDate] == r2[InspectionDate] && r1[InspectionScore] == r2[InspectionScore]
    ensures Coerce([r1, r2]).Ok? && |Coerce([r1, r2]).value| == 2
    ensures TypedKey(Coerce([r1, r2]).value[0]) == TypedKey(Coerce([r1, r2]).value[1])
  {
  }

  /** Re-running `clean` on the same input leaves the cleaned file as one
      run left it: the write replaces the file, it never appends. */
  lemma CleanTaskRerunSafe(f: Frame, file: Option<seq<Inspection>>)
    requires WellFormed(f) && KeptLabelsUnique(NormaliseColumns(f).columns)
    ensures CleanTask(f, CleanTask(f, file)) == CleanTask(f, file)
  {
  }
}
