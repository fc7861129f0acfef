# Property table of the property valuation page

The property valuation page (`main.py`) keeps one table of properties per
browser session under the session-state key `"properties"`. Each row has four
columns: Name, Latitude, Longitude and Rate. The table is created empty the
first time the script runs in a session and changes in exactly two ways:

- the **Add Property** form appends one row when its name and rate are
  non-empty, without checking for duplicates;
- the **Upload Data** page reads a CSV file, checks that its header names all
  four columns, appends the uploaded rows and then drops every row that
  repeats an earlier row on all columns (`drop_duplicates()`, keeping the
  first occurrence). The check runs over the whole combined table, so
  duplicates that the form added earlier collapse too. A file that cannot be
  read, or that lacks a column, leaves the table as it was.

Two pages only read the table: **View Properties** shows a notice for an
empty table and the rows otherwise, and **View Map** places one marker per row
whose popup reads `"<Name>: Rate <Rate>"`.

The Dafny project has three modules:

- `PropertyRecords` (`records.dfy`): the row type, the header check, the
  result of reading a CSV file, and the marker popup.
- `DropDuplicates` (`dedup.dfy`): keep-first removal of exact duplicates over
  any sequence, with its properties: no repeats, the same values, first-
  occurrence order, and the fact that these three properties determine the
  result (`DedupUnique`).
- `Session` (`session.dfy`): the table after an accepted upload (`Merge`),
  lemmas about repeated and successive uploads, and the class
  `SessionState`, whose methods are the form, the upload, the two views and
  one whole run of the page script (`Run`).

`pd.concat` keeps an upload's extra columns in the table; the model's rows
carry only the four table columns (see `Session.Merge` under "Left out").

## Model

| member | source | states |
|---|---|---|
| PropertyRecords.HasRequiredColumns | main.py:60 | an upload is accepted exactly when every one of Name, Latitude, Longitude and Rate is among its header's columns |
| PropertyRecords.ExtraColumnsAccepted | main.py:60 | columns added before or after an accepted header never cause rejection |
| PropertyRecords.MissingColumnRejected | main.py:60 | a header lacking any one of the four columns is rejected |
| PropertyRecords.MarkerLabel | main.py:33 | the popup is the name, then ": Rate ", then the rate, with its length the sum of the three |
| PropertyRecords.MarkerLabelDeterminesNameAndRate | main.py:33 | for names without a colon, equal popups mean equal names and equal rates |
| DropDuplicates.Dedup | main.py:63 | the result has no two equal rows, holds exactly the values of its input, and is no longer than it |
| DropDuplicates.DedupOrder | main.py:63 | the surviving rows are ordered by the position of their first occurrence in the input |
| DropDuplicates.DedupUnique | main.py:63 | any sequence without repeats, with the input's values, in first-occurrence order, is the result of `Dedup`: the three properties define it |
| DropDuplicates.DedupOfDistinct | main.py:63 | a table without repeated rows is left unchanged |
| DropDuplicates.DedupIdempotent | main.py:63 | dropping duplicates twice equals dropping them once |
| DropDuplicates.DedupPrefix | main.py:61-63 | the deduplicated rows of a table stay a prefix after rows are appended |
| DropDuplicates.DedupAbsorbs | main.py:61-63 | appending rows whose values all occur already does not change the deduplicated table |
| DropDuplicates.DedupCompose | main.py:61-63 | deduplicating a prefix before appending more rows gives the same final table |
| DropDuplicates.DedupLength | main.py:63 | the result has one row per distinct value of the input |
| DropDuplicates.DistinctCardinality | main.py:63 | a sequence without repeats has as many elements as distinct values |
| DropDuplicates.DedupKeepsAllIffDistinct | main.py:63 | no row is dropped if and only if no row repeats an earlier one |
| Session.Merge | main.py:61-63 | the table after an accepted upload has no repeated rows, holds every row of the old table and of the upload and nothing else, in first-occurrence order of old rows followed by uploaded rows, one row per distinct value |
| Session.UploadKeepsExistingRows | main.py:61-63 | when the old table has no repeats, it stays a prefix of the merged table: existing rows keep their positions |
| Session.UploadGrowth | main.py:61-63 | an upload grows the table by at most its row count, and by exactly that count if and only if old rows followed by uploaded rows contain no repeat (so repeats left by manual adds collapse) |
| Session.ReuploadIsIdempotent | main.py:61-63 | uploading the same rows twice in a row gives the same table as uploading them once |
| Session.UploadsCompose | main.py:61-63 | two uploads in a row give the table one upload of both files' rows would give |
| Session.DuplicateRowsInOneUpload | main.py:61-63 | two identical rows uploaded into an empty table leave one row |
| Session.SessionState.constructor | main.py:18 | a new session has nothing stored under "properties" |
| Session.SessionState.InitProperties | main.py:18-21 | the empty table is created only when none exists; an existing table is never reset |
| Session.SessionState.AddProperty | main.py:80-93 | with a non-empty name and rate the table grows by one, the new row is last and the earlier rows are unchanged and in order, even when an equal row exists; otherwise the status is the missing-fields error and the table is unchanged |
| Session.SessionState.UploadCsv | main.py:55-68 | a read failure or a missing column reports its error and leaves the table unchanged; otherwise the table becomes `Merge` of the old table and the uploaded rows |
| Session.SessionState.ViewProperties | main.py:43-46 | the notice is shown exactly when the table has no rows; otherwise the listing is the table |
| Session.SessionState.PlaceMarkers | main.py:30-35 | one marker per row, in row order, at the row's coordinates, with the row's popup |
| Session.SessionState.Run | main.py:18-93 | one script run creates the table if missing; the table then changes only by a submitted form with name and rate (append) or an uploaded, readable file with all columns (merge); the map shows each row's marker at the row's coordinates with its popup, in row order; the list page shows `ViewProperties`; a status appears exactly when a form was submitted or a file chosen, and it is the one `AddProperty` or `UploadCsv` reports for that input |

## Left out

- Streamlit page configuration, the sidebar, titles, the texts of the
  success and error messages and the form widgets are user-interface effects;
  the model keeps only which status an action reports.
- The folium map itself (centre, zoom, tiles, icon colour and its rendering
  by `st_folium`) belongs to a foreign library; the model keeps the marker
  coordinates and popup text and the one-marker-per-row order.
- `pd.read_csv` is not modelled: an upload is an abstract `CsvRead`, either
  the exception raised while reading or merging, or a header with its rows.
  Column type inference is left out with it: a Rate column of digits is read
  as numbers, so the source treats the form's text "500" and a file's 500 as
  different rows and prints the number in the popup; the model keeps every
  rate as text.
- Coordinates are real numbers compared for equality; float rounding, NaN
  and pandas' treatment of missing values as equal in `drop_duplicates` are
  not modelled.
- Session.Merge: rows are compared on the four table columns only; `pd.concat`
  keeps an upload's extra columns in the table and `drop_duplicates` compares
  them too, so the source keeps two rows that differ only in an extra column,
  which the model would merge.
- Row index labels are not modelled: the table is a sequence, while the
  source's frame keeps the labels `ignore_index` assigned, gaps included after
  rows are dropped.
- `DataFrame.append` no longer exists in pandas 2.0; the model gives the form
  the append semantics the code intends.
- The name shown in the form's success message is not kept in the status.
