# Cleaning stage of the restaurant-inspection pipeline

The pipeline's `clean` step reads the raw inspection table and normalises
its column labels: a space becomes an underscore, then the label is
lower-cased. It then keeps ten columns in a fixed order and drops every
later row that repeats the (business_id, inspection_date,
inspection_score) of an earlier row. It also drops every row with a
missing cell. Last, it casts each column to its declared type and writes
the cleaned table. If any step raises, nothing is written.

This project models that step as a chain of pure functions on a data
frame and proves what each step guarantees and what their order implies.

- `Wrappers` (`wrappers.dfy`): `Option` and `Result`.
- `Sequences` (`sequences.dfy`): the first position of an element, and
  order-preserving subsequences.
- `Scalars` (`scalars.dfy`): cell values and the three casts. `Int`,
  `Float` and `Text` values exist. int64 accepts integers in range,
  truncates floats toward zero and reads `[sign]digits` text. float64
  accepts numbers, and text made of an optional sign, digits and at most
  one point with a digit on at least one side (so "90.5", ".5" and "5."
  all read). The 'string' dtype never fails; an integer becomes the text
  `str()` writes for it.
- `Frames` (`frames.dfy`): a frame is a header plus rows of optional
  cells, positionally like a DataFrame.
- `Cleaning` (`clean.dfy`): the five steps, `Prepare` (steps 1 to 4),
  `Clean` (all five) and `CleanTask`, which is `Clean` followed by the
  write.
- `CleanProperties` (`clean_properties.dfy`): properties of the chain.
  - the guarantees on the prepared rows;
  - the consequence of deduplicating before dropping nulls;
  - idempotence of steps 1 to 4;
  - the tie between cleaned records and prepared rows;
  - when keys stay unique after the casts, and a counterexample when
    they do not.

Two places where the code and its own description differ; the model
follows the code:
- The docstring of `clean` (lines 59-66) lists the type change before
  removing duplicates and missing values. The code casts last (line 106),
  after both removals (lines 88 and 92).
- The errors are the ones pandas raises: `KeyError` for a missing column,
  and `ValueError` or `OverflowError` from `astype`. In the model they are
  `MissingColumns` and `BadValue`. No dedicated schema or coercion
  exception types exist in the code.

## Model

| member | source | states |
|---|---|---|
| Cleaning.NormaliseName | dags/P2M3_Sifra_Siregar_DAG.py:74-75 | a label keeps its length; every space becomes '_', every capital its lower-case letter, every other character stays; the result has no space and no capital |
| Cleaning.NormalNameIsFixed | dags/P2M3_Sifra_Siregar_DAG.py:74-75 | a label with no space and no capital is left unchanged by the normalisation |
| Cleaning.NormaliseNameIdempotent | dags/P2M3_Sifra_Siregar_DAG.py:74-75 | normalising a label twice gives what normalising it once gives |
| Cleaning.NormaliseColumns | dags/P2M3_Sifra_Siregar_DAG.py:74-75 | the relabelled frame has the same rows and as many labels, each the normalised form of the label at its position, none with a space or capital |
| Cleaning.MissingOf | dags/P2M3_Sifra_Siregar_DAG.py:84 | the names reported missing are exactly the requested names absent from the header, in the requested order |
| Cleaning.Project | dags/P2M3_Sifra_Siregar_DAG.py:78-84 | selection succeeds iff every one of the ten kept labels is present; on failure the KeyError names exactly the absent kept labels and at least one; on success the header is the ten labels in the listed order, the row count is unchanged and every kept cell of every row is the input's cell under that label |
| Cleaning.DropDuplicates | dags/P2M3_Sifra_Siregar_DAG.py:88 | dropping duplicates keeps rows of ten cells and never adds rows |
| Cleaning.DropDuplicatesKeysUnique | dags/P2M3_Sifra_Siregar_DAG.py:88 | after dropping duplicates no two rows share (business_id, inspection_date, inspection_score), a missing cell equal to a missing cell |
| Cleaning.DropDuplicatesFirstWins | dags/P2M3_Sifra_Siregar_DAG.py:88 | every surviving row is the first input row with its key |
| Cleaning.DropDuplicatesKeepsEveryKey | dags/P2M3_Sifra_Siregar_DAG.py:88 | the set of keys is unchanged: every key of the input keeps one row |
| Cleaning.DropDuplicatesSubsequence | dags/P2M3_Sifra_Siregar_DAG.py:88 | the surviving rows are input rows with some deleted and the order kept |
| Cleaning.KeyPosition | dags/P2M3_Sifra_Siregar_DAG.py:88 | the first position of a row holding the key, or the number of rows when no row has it: no earlier row has the key |
| Cleaning.DropDuplicatesKeyOrder | dags/P2M3_Sifra_Siregar_DAG.py:88 | the survivors come in the order in which their keys first occur in the input; with the four lemmas above this fixes the output |
| Cleaning.DropNulls | dags/P2M3_Sifra_Siregar_DAG.py:92 | a row survives iff it is an input row with no missing cell; every complete row keeps all its copies and an incomplete one none; there are at most as many rows as before |
| Cleaning.DropNullsSubsequence | dags/P2M3_Sifra_Siregar_DAG.py:92 | the rows kept by dropna are the input rows with some deleted and the order kept |
| Scalars.Digits | dags/P2M3_Sifra_Siregar_DAG.py:96 | the decimal spelling of a natural number is a non-empty string of digits with no superfluous leading zero, whose value is that number |
| Scalars.DigitsOfValue | dags/P2M3_Sifra_Siregar_DAG.py:96 | a digit string with no superfluous leading zero is the spelling of its own value, so the spelling of a number is unique |
| Scalars.ParseInt | dags/P2M3_Sifra_Siregar_DAG.py:95 | int() on text succeeds iff the text is digits after an optional sign, at least one digit; its value is the digits' value, negated after a '-'; a negative result comes only from a leading '-' |
| Scalars.Decimal | dags/P2M3_Sifra_Siregar_DAG.py:96 | the text an integer becomes under the 'string' dtype is the canonical one `str()` writes (a '-' exactly for a negative number, no superfluous leading zero, no '+') and reads back under int() as that integer |
| Scalars.DecimalOfCanonical | dags/P2M3_Sifra_Siregar_DAG.py:96 | every canonical integer text is the text Decimal writes for its value: Decimal and int() are inverse on canonical texts |
| Scalars.ParseMagnitude | dags/P2M3_Sifra_Siregar_DAG.py:100 | an unsigned float literal is accepted iff it is digits with at most one point and at least one digit; its value lies between its whole part and the whole part plus one; a plain digit string reads as its integer value |
| Scalars.ParseDecimal | dags/P2M3_Sifra_Siregar_DAG.py:100 | float() on text succeeds iff it is an optional sign, digits and at most one point with a digit on some side; the value truncates to the signed whole part; every integer literal int() accepts reads as the same number |
| Scalars.Trunc | dags/P2M3_Sifra_Siregar_DAG.py:95 | a float cast to an integer is truncated toward zero: within one of the float, and not past it away from zero |
| Scalars.ToInt64 | dags/P2M3_Sifra_Siregar_DAG.py:95 | the int64 cast accepts an integer iff it fits in 64 bits and keeps it; accepts text iff it is an integer literal whose value fits, with that value; turns a float into its truncation toward zero |
| Scalars.ToFloat64 | dags/P2M3_Sifra_Siregar_DAG.py:100 | the float64 cast keeps a float, turns an integer into the same number, accepts text iff it is a float literal, whose value truncates to its signed whole part, and reads an integer literal as its value |
| Scalars.ToStr | dags/P2M3_Sifra_Siregar_DAG.py:96-104 | the 'string' cast keeps text as it is, writes an integer as its canonical decimal text, which reads back as the integer, and renders a float by its own rendering |
| Scalars.ToStrInjectiveOnKind | dags/P2M3_Sifra_Siregar_DAG.py:96-104 | two values of one kind that become the same string are the same value |
| Scalars.TextOfIntegerCastsLikeInteger | dags/P2M3_Sifra_Siregar_DAG.py:94-106 | an integer and its decimal text cast to the same int64, float64 and string |
| Cleaning.Cast | dags/P2M3_Sifra_Siregar_DAG.py:94-106 | a row every cast accepts becomes a record holding, field by field, the cast of its cell |
| Cleaning.FirstRejected | dags/P2M3_Sifra_Siregar_DAG.py:106 | a column has no rejected value iff its cast accepts every row's cell; a reported value is rejected and is a cell of that column |
| Cleaning.FirstFailure | dags/P2M3_Sifra_Siregar_DAG.py:94-106 | no error iff every cast accepts every cell from the given column on; an error names a column that can fail (business_id, business_postal_code or inspection_score), the first from the given column on, in kept order, that holds a rejected value, and a value of that column its cast rejects |
| Cleaning.CastAll | dags/P2M3_Sifra_Siregar_DAG.py:106 | when every cell casts, the output has one record per row, each the cast of its row |
| Cleaning.Coerce | dags/P2M3_Sifra_Siregar_DAG.py:94-106 | astype succeeds iff every row casts; on success one typed record per row in order; on failure a BadValue naming the first column in kept order holding a value its cast rejects, and such a value of that column |
| Cleaning.Prepare | dags/P2M3_Sifra_Siregar_DAG.py:74-92 | steps 1 to 4 succeed iff every kept label is present after normalisation; a failure is a missing-column error; a success has the ten kept labels, ten-cell rows and no missing cell |
| Cleaning.Clean | dags/P2M3_Sifra_Siregar_DAG.py:71-106 | the call fails with missing columns iff a kept label is absent after normalisation; a cast failure names a column that can fail and is exactly the failure the casts report on the prepared rows; it succeeds iff steps 1 to 4 succeed and every prepared row casts, and then each record is the cast of its prepared row |
| Cleaning.CleanTask | dags/P2M3_Sifra_Siregar_DAG.py:106-111 | a missing kept column or a prepared row that does not cast leaves the cleaned file as it was; on success the file holds exactly the cleaned records |
| CleanProperties.UniqueKeysSubsequence | dags/P2M3_Sifra_Siregar_DAG.py:88-92 | deleting rows from rows with distinct keys keeps the keys distinct |
| CleanProperties.PrepareGuarantees | dags/P2M3_Sifra_Siregar_DAG.py:84-92 | the prepared rows have pairwise distinct keys and no missing cell; they are the projected input rows with some deleted and the order kept, so there are at most as many as input rows |
| CleanProperties.FirstRowWithNullLosesKey | dags/P2M3_Sifra_Siregar_DAG.py:88-92 | when the first row of a key has a missing cell, no row with that key survives dropping duplicates and then nulls |
| CleanProperties.PrepareLosesKeyOfIncompleteFirstRow | dags/P2M3_Sifra_Siregar_DAG.py:74-92 | the same for the whole frame: the key of an incomplete first row is absent from the prepared rows |
| CleanProperties.LaterCompleteRowDoesNotRescueKey | dags/P2M3_Sifra_Siregar_DAG.py:88-92 | an incomplete row followed by a complete row with the same key leaves no row at all |
| CleanProperties.KeptNamesAreNormal | dags/P2M3_Sifra_Siregar_DAG.py:78-83 | each of the ten kept labels is its own normal form |
| CleanProperties.ProjectKeptIsIdentity | dags/P2M3_Sifra_Siregar_DAG.py:78-84 | selecting the kept columns of a frame that already has exactly them, in order, returns the frame |
| CleanProperties.DedupFromUniqueIsIdentity | dags/P2M3_Sifra_Siregar_DAG.py:88 | dropping duplicates from rows with distinct keys, none already seen, changes nothing |
| CleanProperties.DropNullsCompleteIsIdentity | dags/P2M3_Sifra_Siregar_DAG.py:92 | dropna on rows with no missing cell changes nothing |
| CleanProperties.PrepareKeptFrame | dags/P2M3_Sifra_Siregar_DAG.py:74-92 | a frame already carrying the kept header goes through steps 1 and 2 unchanged |
| CleanProperties.PrepareFixedPoint | dags/P2M3_Sifra_Siregar_DAG.py:74-92 | rows with the kept header, distinct keys and no missing cell are left as they are by steps 1 to 4 |
| CleanProperties.PrepareIdempotent | dags/P2M3_Sifra_Siregar_DAG.py:74-92 | running steps 1 to 4 on their own output gives that output again |
| CleanProperties.CleanTracesInput | dags/P2M3_Sifra_Siregar_DAG.py:84-106 | each cleaned record is, field by field, the cast of the prepared row at its position; the prepared rows are an order-kept subsequence of the projected rows; at most as many records as input rows |
| CleanProperties.CleanTypedKeysUnique | dags/P2M3_Sifra_Siregar_DAG.py:88-106 | when the key columns hold integer ids, text dates and scores that are all floats or all integers, no two cleaned records share business id, date and score |
| CleanProperties.LeadingZeroIsIgnored | dags/P2M3_Sifra_Siregar_DAG.py:95 | the int64 cast reads "1" and "01" as the same integer |
| CleanProperties.SameKeyCellsSameTypedKey | dags/P2M3_Sifra_Siregar_DAG.py:94-106 | two castable rows whose key cells cast alike give records with the same typed key |
| CleanProperties.CleanKeptFrame | dags/P2M3_Sifra_Siregar_DAG.py:71-106 | rows with the kept header, distinct keys and no missing cell go straight to the casts |
| CleanProperties.CleanTaskRerunSafe | dags/P2M3_Sifra_Siregar_DAG.py:111 | running the cleaning job twice on the same input leaves the file as one run leaves it: the write replaces the file and never appends |
| CleanProperties.TypedKeysMayRepeat | dags/P2M3_Sifra_Siregar_DAG.py:88-106 | business ids "1" and "01" with the same date and score survive deduplication as two rows and become two cleaned records with the same key |

## Left out

- Reading the CSV (line 71) and writing it (line 111) are not modelled as
  I/O. The input is an already-parsed frame. The output file is a
  parameter of `CleanTask`: what the file held before, and what it holds
  after.
- `getdata` (lines 22-48) is left out: the database query and the raw
  CSV write.
- `index_to_elasticsearch` (lines 114-132) is left out: one network call
  per row.
- The Airflow DAG, schedule and task chaining (lines 135-175) are left
  out.
- The hard-coded file paths are left out.
- pandas' CSV parsing and type inference are left out. Each cell is
  given as an integer, a float, a text or missing.
- float64 is modelled as the exact real it denotes. Rounding, NaN and
  infinities are left out.
- The text pandas makes of a float under the 'string' dtype is kept
  abstract (`Str.ReprOf`). Its exact digits belong to numpy's float
  formatting.
- The bool values the reader can produce are left out.
- Python's cross-type equality (90 == 90.0) between cells of an object
  column is left out. Duplicate keys compare values of the same kind.
- Lower-casing covers the ASCII letters only. `str.lower` on other
  scripts is not modelled.
- Scalars.ParseInt: accepts `[sign]digits` only. It leaves out the
  whitespace, underscores and other digit scripts that Python's `int()`
  also accepts.
- Scalars.ParseDecimal: accepts an optional sign, digits and at most one
  point with a digit on at least one side. It leaves out the exponents,
  whitespace, underscores, `inf` and `nan` that `float()` also accepts.
  Its value is stated exactly only for integer literals; for others the
  contract bounds it by the whole part.
- Scalars.ToFloat64: on text with a point the contract bounds the value by
  the whole part, as for ParseDecimal, and does not state it exactly.
- Scalars.ParseMagnitude: on a body with a point the contract bounds the
  value by the whole part and does not state it exactly.
- Scalars.ToInt64: a float outside the int64 range is truncated with no
  overflow check. numpy's behaviour there is platform-defined.
- Cleaning.Project: requires that a kept label names at most one column
  after normalisation. With a repeated label pandas would select every
  such column. That duplicate-label behaviour is library-specific.
- CleanProperties.CleanTypedKeysUnique: requires the key columns to hold
  native values (integer ids, text dates, scores all floats or all
  integers). Without that the
  property is false, as `CleanProperties.TypedKeysMayRepeat` shows.
- `reset_index(drop=True)` (line 92) is left out. A frame here has no
  index labels, only row order.
