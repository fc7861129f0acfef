/**
  The rows of the session property table and the values derived from one row:
  its map marker and the header check applied to an uploaded CSV file.
 */
module PropertyRecords {

  /**
    A latitude or longitude. The table only stores these, compares them for
    equality and hands them to the map, so a real number stands in for the
    float the form and the CSV reader produce.
   */
  type Coordinate = real

  /** One row of the table: the columns Name, Latitude, Longitude and Rate. */
  datatype Record = Record(name: string, latitude: Coordinate, longitude: Coordinate, rate: string)

  /** The columns of the table, in the order the empty table is created with. */
  const COLUMNS: seq<string> := ["Name", "Latitude", "Longitude", "Rate"]

  /**
    What reading an uploaded file as CSV gives: the exception raised while
    reading or merging it, or the file's header and its rows.
   */
  datatype CsvRead =
    | ReadFailure(cause: string)
    | Frame(header: seq<string>, rows: seq<Record>)

  /**
    An upload is accepted when its header names every table column; other
    columns may appear too, in any order.
   */
  function HasRequiredColumns(header: seq<string>): (ok: bool)
    ensures ok <==> forall c :: c in COLUMNS ==> c in header
  {
    "Name" in header && "Latitude" in header && "Longitude" in header && "Rate" in header
  }

  /** Extra columns, before or after, never make an accepted header rejected. */
  lemma ExtraColumnsAccepted(header: seq<string>, before: seq<string>, after: seq<string>)
    requires HasRequiredColumns(header)
    ensures HasRequiredColumns(before + header + after)
  {
  }

  /** A header that lacks any one table column is rejected. */
  lemma MissingColumnRejected(header: seq<string>, column: string)
    requires column in COLUMNS && column !in header
    ensures !HasRequiredColumns(header)
  {
  }

  /** The text between a row's name and its rate in the marker popup. */
  const RATE_INFIX: string := ": Rate "

  /** The popup of a row's marker: the name, then ": Rate ", then the rate. */
  function MarkerLabel(r: Record): (popup: string)
    ensures |popup| == |r.name| + |RATE_INFIX| + |r.rate|
    ensures var n := |r.name|; popup[..n] == r.name
    ensures var n := |r.name|; popup[n..n + |RATE_INFIX|] == RATE_INFIX
    ensures var n := |r.name|; popup[n + |RATE_INFIX|..] == r.rate
  {
    r.name + RATE_INFIX + r.rate
  }

  /**
    When neither name contains a colon, equal popups mean equal names and
    equal rates: the first colon of a popup ends the name.
   */
  lemma {:induction false} MarkerLabelDeterminesNameAndRate(r1: Record, r2: Record)
    requires ':' !in r1.name && ':' !in r2.name
    requires MarkerLabel(r1) == MarkerLabel(r2)
    ensures r1.name == r2.name && r1.rate == r2.rate
  {
    var popup := MarkerLabel(r1);
    FirstColonEndsName(r1);
    FirstColonEndsName(r2);
    assert |r1.name| == |r2.name|;
    assert r1.name == popup[..|r1.name|] == r2.name;
  }

  /** In a popup whose name has no colon, the first colon sits right after the name. */
  lemma FirstColonEndsName(r: Record)
    requires ':' !in r.name
    ensures |r.name| < |MarkerLabel(r)| && MarkerLabel(r)[|r.name|] == ':'
    ensures forall i :: 0 <= i < |r.name| ==> MarkerLabel(r)[i] != ':'
  {
    var popup, n := MarkerLabel(r), |r.name|;
    assert popup[n] == popup[n..n + |RATE_INFIX|][0];
    assert forall i :: 0 <= i < n ==> popup[i] == popup[..n][i] == r.name[i];
  }

  /** A map marker: where it stands and what its popup says. */
  datatype Marker = Marker(latitude: Coordinate, longitude: Coordinate, popup: string)

  /** The marker the map shows for one row. */
  function MarkerFor(r: Record): Marker {
    Marker(r.latitude, r.longitude, MarkerLabel(r))
  }
}
