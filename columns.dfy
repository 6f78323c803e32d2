/** Locating a named column in the header row of the contribution CSV. */
module Columns {
  import opened Wrappers

  /** One row of a CSV file, as the reader yields it: a list of cells. */
  type Row = seq<string>

  /** The first index holding `h`, for an `h` that occurs (`list.index`). */
  function IndexOf(headers: seq<string>, h: string): (i: nat)
    requires h in headers
    ensures i < |headers| && headers[i] == h
    ensures forall j :: 0 <= j < i ==> headers[j] != h
  {
    if headers[0] == h then 0 else 1 + IndexOf(headers[1..], h)
  }

  /** `ColIndex`: the position of the first header equal to `h`, or -1 when
      no header is. */
  function ColIndex(headers: seq<string>, h: string): (r: int)
    ensures r == -1 <==> h !in headers
    ensures r != -1 ==> 0 <= r < |headers| && headers[r] == h
    ensures r != -1 ==> forall j :: 0 <= j < r ==> headers[j] != h
  {
    if h !in headers then -1 else IndexOf(headers, h)
  }

  datatype HeaderError =
    | EmptySource        // `mailingsdata[0]` on a file without rows raises IndexError
    | NoMailingsColumn   // the header row has no "Mailings" column

  const MailingsHeader: string := "Mailings"

  /** The header row is the first row of the data; the mailings column is
      the first header spelled exactly "Mailings". */
  function MailingsColumn(data: seq<Row>): (r: Result<nat, HeaderError>)
    ensures r == Failure(EmptySource) <==> data == []
    ensures r == Failure(NoMailingsColumn) <==> data != [] && MailingsHeader !in data[0]
    ensures r.Success? ==> r.value < |data[0]| && data[0][r.value] == MailingsHeader
    ensures r.Success? ==> forall j :: 0 <= j < r.value ==> data[0][j] != MailingsHeader
  {
    if data == [] then Failure(EmptySource)
    else
      var col := ColIndex(data[0], MailingsHeader);
      if col == -1 then Failure(NoMailingsColumn) else Success(col)
  }
}
