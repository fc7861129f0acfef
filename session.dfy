/**
  The property table kept in the session state of the property valuation page,
  and the two actions that change it: the manual-add form and the CSV upload.
  One run of the page script first makes sure the table exists, then serves
  the page the sidebar selects.
 */
module Session {
  import opened PropertyRecords
  import opened DropDuplicates

  datatype Option<T> = None | Some(value: T)

  /** What an action reports on the page. */
  datatype Status =
    | Added           // the form's row was appended
    | MissingFields   // the form lacked a name or a rate
    | Uploaded        // the upload was merged into the table
    | MissingColumns  // the upload's header lacks a table column
    | ReadError(cause: string)  // the upload could not be read as CSV

  /** The page the sidebar selects, with what the user entered on it. */
  datatype Page =
    | MapPage
    | PropertiesPage
    | UploadPage(file: Option<CsvRead>)  // None: no file chosen yet
    | AddPage(submitted: bool, name: string, latitude: Coordinate, longitude: Coordinate, rate: string)

  /** What one run of the page script shows, apart from titles and widgets. */
  datatype Screen =
    | MapScreen(markers: seq<Marker>)
    | PropertiesScreen(view: PropertyView)
    | ActionScreen(status: Option<Status>)  // None: nothing submitted

  /** The properties page: a notice for an empty table, otherwise the rows. */
  datatype PropertyView = NoProperties | Listing(rows: seq<Record>)

  /**
    The table after an accepted upload: the uploaded rows appended, then every
    row that repeats an earlier row on all four columns dropped.
   */
  function Merge(table: seq<Record>, upload: seq<Record>): (merged: seq<Record>)
    ensures Distinct(merged)
    ensures Elements(merged) == Elements(table) + Elements(upload)
    ensures InFirstOccurrenceOrder(merged, table + upload)
    ensures |merged| == |Elements(table + upload)|
  {
    assert Elements(table + upload) == Elements(table) + Elements(upload);
    DedupOrder(table + upload);
    DedupLength(table + upload);
    Dedup(table + upload)
  }

  /** An upload never moves or drops the rows of a table without repeats. */
  lemma UploadKeepsExistingRows(table: seq<Record>, upload: seq<Record>)
    requires Distinct(table)
    ensures table <= Merge(table, upload)
  {
    DedupPrefix(table, upload);
    DedupOfDistinct(table);
  }

  /**
    An upload adds exactly as many rows as it holds precisely when no row of
    the table followed by the upload repeats an earlier one; otherwise the
    repeats, whether from the upload or from earlier manual adds, are dropped.
   */
  lemma UploadGrowth(table: seq<Record>, upload: seq<Record>)
    ensures |Merge(table, upload)| <= |table| + |upload|
    ensures |Merge(table, upload)| == |table| + |upload| <==> Distinct(table + upload)
  {
    DedupKeepsAllIffDistinct(table + upload);
  }

  /** Uploading the same file again right after changes nothing. */
  lemma ReuploadIsIdempotent(table: seq<Record>, upload: seq<Record>)
    ensures Merge(Merge(table, upload), upload) == Merge(table, upload)
  {
    var merged := Merge(table, upload);
    forall x | x in upload ensures x in merged {
      assert x in Elements(upload);
    }
    DedupAbsorbs(merged, upload);
    DedupIdempotent(table + upload);
  }

  /** Two uploads in a row give the table one upload of both files would give. */
  lemma UploadsCompose(table: seq<Record>, first: seq<Record>, second: seq<Record>)
    ensures Merge(Merge(table, first), second) == Merge(table, first + second)
  {
    var both := table + first;
    calc {
      Merge(Merge(table, first), second);
      Dedup(Dedup(both) + second);
      { DedupCompose(both, second); }
      Dedup(both + second);
      { assert both + second == table + (first + second); }
      Merge(table, first + second);
    }
  }

  /** Two identical rows in one upload into an empty table leave one row. */
  lemma DuplicateRowsInOneUpload(r: Record)
    ensures Merge([], [r, r]) == [r]
  {
    assert [] + [r, r] == [r, r];
    assert [r, r][..1] == [r] && [r][..0] == [];
    assert Dedup([r]) == [r];
  }

  /**
    The session state of one browser session, as far as the table goes:
    whether anything is stored under the key "properties" yet and, once it
    is, the rows of that table.
   */
  class SessionState {
    var hasProperties: bool
    var properties: seq<Record>

    /** A new session stores nothing under "properties". */
    constructor ()
      ensures !hasProperties && properties == []
    {
      hasProperties := false;
      properties := [];
    }

    /** Creates the empty table when none exists; an existing table is kept. */
    method InitProperties()
      modifies this
      ensures hasProperties
      ensures properties == if old(hasProperties) then old(properties) else []
    {
      if !hasProperties {
        hasProperties := true;
        properties := [];
      }
    }

    /**
      The manual-add form: a row with a name and a rate is appended after all
      existing rows, even when an equal row is already there; otherwise the
      table is left as it is.
     */
    method AddProperty(name: string, latitude: Coordinate, longitude: Coordinate, rate: string)
      returns (status: Status)
      requires hasProperties
      modifies this
      ensures hasProperties
      ensures status == if name != [] && rate != [] then Added else MissingFields
      ensures status == Added ==> properties == old(properties) + [Record(name, latitude, longitude, rate)]
      ensures status == Added ==>
                && |properties| == |old(properties)| + 1
                && properties[|properties| - 1] == Record(name, latitude, longitude, rate)
                && properties[..|old(properties)|] == old(properties)
      ensures status == MissingFields ==> properties == old(properties)
    {
      if name != [] && rate != [] {
        properties := properties + [Record(name, latitude, longitude, rate)];
        status := Added;
      } else {
        status := MissingFields;
      }
    }

    /**
      The CSV upload: a file that cannot be read, or whose header lacks a
      table column, leaves the table as it is; otherwise the table becomes the
      merge of the table and the uploaded rows.
     */
    method UploadCsv(read: CsvRead) returns (status: Status)
      requires hasProperties
      modifies this
      ensures hasProperties
      ensures read.ReadFailure? ==> status == ReadError(read.cause) && properties == old(properties)
      ensures read.Frame? && !HasRequiredColumns(read.header) ==>
                status == MissingColumns && properties == old(properties)
      ensures read.Frame? && HasRequiredColumns(read.header) ==>
                status == Uploaded && properties == Merge(old(properties), read.rows)
    {
      match read
      case ReadFailure(cause) =>
        status := ReadError(cause);
      case Frame(header, rows) =>
        if HasRequiredColumns(header) {
          properties := Merge(properties, rows);
          status := Uploaded;
        } else {
          status := MissingColumns;
        }
    }

    /** The properties page shows a notice exactly when the table has no rows. */
    function ViewProperties(): (view: PropertyView)
      reads this
      requires hasProperties
      ensures view == NoProperties <==> properties == []
      ensures view.Listing? ==> view.rows == properties
    {
      if |properties| == 0 then NoProperties else Listing(properties)
    }

    /** The map page: one marker per row, in the order of the rows. */
    method PlaceMarkers() returns (markers: seq<Marker>)
      requires hasProperties
      ensures |markers| == |properties|
      ensures forall i :: 0 <= i < |properties| ==>
                && markers[i].latitude == properties[i].latitude
                && markers[i].longitude == properties[i].longitude
                && markers[i].popup == MarkerLabel(properties[i])
    {
      markers := [];
      for i := 0 to |properties|
        invariant |markers| == i
        invariant forall k :: 0 <= k < i ==> markers[k] == MarkerFor(properties[k])
      {
        markers := markers + [MarkerFor(properties[i])];
      }
    }

    /**
      One run of the page script: make sure the table exists, then serve the
      selected page. Only a submitted form and an uploaded file can change the
      table.
     */
    method Run(page: Page) returns (screen: Screen)
      modifies this
      ensures hasProperties
      ensures var before := if old(hasProperties) then old(properties) else [];
        properties == match page
          case AddPage(true, name, latitude, longitude, rate) =>
            if name != [] && rate != [] then before + [Record(name, latitude, longitude, rate)] else before
          case UploadPage(Some(Frame(header, rows))) =>
            if HasRequiredColumns(header) then Merge(before, rows) else before
          case _ => before
      ensures page.MapPage? ==>
                && screen.MapScreen? && |screen.markers| == |properties|
                && forall i :: 0 <= i < |properties| ==> screen.markers[i] == MarkerFor(properties[i])
      ensures page.PropertiesPage? ==> screen == PropertiesScreen(ViewProperties())
      ensures page.UploadPage? ==> (screen == ActionScreen(None) <==> page.file.None?)
      ensures page.AddPage? ==> (screen == ActionScreen(None) <==> !page.submitted)
      ensures page.UploadPage? && page.file.Some? ==>
                screen == ActionScreen(Some(match page.file.value
                  case ReadFailure(cause) => ReadError(cause)
                  case Frame(header, _) => if HasRequiredColumns(header) then Uploaded else MissingColumns))
      ensures page.AddPage? && page.submitted ==>
                screen == ActionScreen(Some(if page.name != [] && page.rate != [] then Added else MissingFields))
    {
      InitProperties();
      match page
      case MapPage =>
        var markers := PlaceMarkers();
        screen := MapScreen(markers);
      case PropertiesPage =>
        screen := PropertiesScreen(ViewProperties());
      case UploadPage(file) =>
        if file.Some? {
          var status := UploadCsv(file.value);
          screen := ActionScreen(Some(status));
        } else {
          screen := ActionScreen(None);
        }
      case AddPage(submitted, name, latitude, longitude, rate) =>
        if submitted {
          var status := AddProperty(name, latitude, longitude, rate);
          screen := ActionScreen(Some(status));
        } else {
          screen := ActionScreen(None);
        }
    }
  }

  /**
    A session in which the form adds the same row twice, both copies are kept,
    and a later upload of a header without rows collapses them into one.
   */
  method ManualDuplicatesCollapseOnUpload(r: Record)
    requires r.name != [] && r.rate != []
  {
    var session := new SessionState();
    session.InitProperties();
    var status := session.AddProperty(r.name, r.latitude, r.longitude, r.rate);
    status := session.AddProperty(r.name, r.latitude, r.longitude, r.rate);
    assert session.properties == [r, r];
    status := session.UploadCsv(Frame(COLUMNS, []));
    assert status == Uploaded;
    assert [r, r] + [] == [r, r] && [r, r][..1] == [r] && [r][..0] == [];
    assert Dedup([r]) == [r];
    assert session.properties == [r];
  }
}
