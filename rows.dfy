/** One input row and the fields the analysis reads from it. The uploaded CSV
    names some columns in two ways ("Mandal name" or "Mandal_name"); each field
    is read from the first of its two columns that holds a truthy value. */
module Rows {
  import opened JsValues

  /** A parsed row: column header to cell. A header the row lacks reads as
      undefined. */
  type Row = map<string, Cell>

  /** Decimal degrees. */
  datatype GeoPoint = GeoPoint(lat: real, lon: real)

  /** What one row contributes, after the `||` fallbacks and the number
      parsing. Coordinates and the student count are JavaScript numbers (NaN
      for a `#N/A` cell); names and codes are cells as they came. */
  datatype RowFields = RowFields(
    mandalName: Cell,
    mandalCode: Cell,
    schoolName: Cell,
    fpsLat: JsNumber,
    fpsLon: JsNumber,
    schoolLat: JsNumber,
    schoolLon: JsNumber,
    shopNo: Cell,
    totalStudents: JsNumber)

  function Column(row: Row, header: string): Cell {
    if header in row then row[header] else Empty
  }

  /** `row[a] || row[b] || fallback` */
  function Either(row: Row, a: string, b: string, fallback: Cell): Cell {
    Or3(Column(row, a), Column(row, b), fallback)
  }

  const Zero := Number(Finite(0.0))
  const NoText := Text("")

  function ReadRow(row: Row): RowFields {
    RowFields(
      Either(row, "Mandal name", "Mandal_name", NoText),
      Either(row, "Mandal code", "Mandal_code", NoText),
      Or(Column(row, "name_of_the_school"), NoText),
      ParseFloat(Either(row, "FPS Lattitude", "FPS_Lattitude", Zero)),
      ParseFloat(Either(row, "FPS Logitude", "FPS_Longitude", Zero)),
      ParseFloat(Either(row, "School Lattitude", "School_Lattitude", Zero)),
      ParseFloat(Either(row, "School Longitude", "School_Longitude", Zero)),
      Either(row, "shop_no", "MLS name", NoText),
      ParseInt(Either(row, "Total Students", "total_students", Zero)))
  }

  /** The row names an FPS point: both coordinates and the shop key truthy. */
  predicate HasFps(f: RowFields) {
    NumberTruthy(f.fpsLat) && NumberTruthy(f.fpsLon) && Truthy(f.shopNo)
  }

  /** The row names a school point: both coordinates and the name truthy. */
  predicate HasSchool(f: RowFields) {
    NumberTruthy(f.schoolLat) && NumberTruthy(f.schoolLon) && Truthy(f.schoolName)
  }

  function FpsLocation(f: RowFields): GeoPoint
    requires HasFps(f)
  {
    GeoPoint(f.fpsLat.value, f.fpsLon.value)
  }

  function SchoolLocation(f: RowFields): GeoPoint
    requires HasSchool(f)
  {
    GeoPoint(f.schoolLat.value, f.schoolLon.value)
  }

  /** A row whose school latitude is the `#N/A` sentinel names no school,
      whatever its other columns hold: the sentinel is truthy text, so the
      alternative column is never consulted, and it parses to NaN. */
  lemma NotAvailableLatitudeNamesNoSchool(row: Row)
    requires Column(row, "School Lattitude") == Text("#N/A")
    ensures !HasSchool(ReadRow(row))
  {
    var c := Either(row, "School Lattitude", "School_Lattitude", Zero);
    assert c == Text("#N/A");
    NotAvailableIsNaN();
    assert ReadRow(row).schoolLat == ParseFloat(c);
  }
}
