/** The catalogue file shared by the scraper (which writes it) and the
    vector-store builder and retriever (which read it): one header row and
    one row of eight text cells per assessment. */
module Catalog {
  import opened Wrappers

  /** One assessment, one field per column. */
  datatype Row = Row(
    name: string,
    url: string,
    remoteTesting: string,
    adaptiveSupport: string,
    assessmentType: string,
    skills: string,
    description: string,
    duration: string)

  /** The header row, in column order. */
  const Header: seq<string> :=
    ["Name", "URL", "RemoteTesting", "AdaptiveSupport", "Type", "Skills", "Description", "Duration"]

  /** The cells written for a row, in header order. */
  function Cells(r: Row): (c: seq<string>)
    ensures |c| == |Header|
  {
    [r.name, r.url, r.remoteTesting, r.adaptiveSupport, r.assessmentType, r.skills, r.description, r.duration]
  }

  /** `row[column]` on a row read back from the file: the cell under the
      first header cell named `column`, if the row has one. */
  function Lookup(header: seq<string>, cells: seq<string>, column: string): (r: Option<string>)
    ensures r.Some? ==> exists i :: 0 <= i < |header| && i < |cells| && header[i] == column && r.value == cells[i]
    ensures r.None? ==> forall i :: 0 <= i < |header| && i < |cells| ==> header[i] != column
  {
    if header == [] || cells == [] then None
    else if header[0] == column then Some(cells[0])
    else
      var r := Lookup(header[1..], cells[1..], column);
      assert r.Some? ==> exists i :: 0 <= i < |header[1..]| && i < |cells[1..]| && header[1..][i] == column && r.value == cells[1..][i];
      r
  }

  /** A row read back by column name, as the readers of the file do; `None`
      when a column they read is missing. */
  function ReadRow(header: seq<string>, cells: seq<string>): Option<Row> {
    var name := Lookup(header, cells, "Name");
    var url := Lookup(header, cells, "URL");
    var remote := Lookup(header, cells, "RemoteTesting");
    var adaptive := Lookup(header, cells, "AdaptiveSupport");
    var kind := Lookup(header, cells, "Type");
    var skills := Lookup(header, cells, "Skills");
    var description := Lookup(header, cells, "Description");
    var duration := Lookup(header, cells, "Duration");
    if name.Some? && url.Some? && remote.Some? && adaptive.Some? && kind.Some? && skills.Some?
      && description.Some? && duration.Some?
    then Some(Row(name.value, url.value, remote.value, adaptive.value, kind.value, skills.value,
                  description.value, duration.value))
    else None
  }

  /** No two columns share a name, so each is found at its own position. */
  lemma HeaderNamesDistinct()
    ensures forall i, j :: 0 <= i < j < |Header| ==> Header[i] != Header[j]
  {
  }

  /** Under a header with distinct names, looking a column up returns the
      cell at that column's position. */
  lemma {:induction false} LookupAt(header: seq<string>, cells: seq<string>, i: nat)
    requires i < |header| == |cells|
    requires forall a, b :: 0 <= a < b < |header| ==> header[a] != header[b]
    ensures Lookup(header, cells, header[i]) == Some(cells[i])
  {
    if i > 0 {
      assert header[0] != header[i];
      assert header[1..][i - 1] == header[i];
      LookupAt(header[1..], cells[1..], i - 1);
    }
  }

  /** What the scraper writes is what the readers read back. */
  lemma ReadWrittenRow(r: Row)
    ensures ReadRow(Header, Cells(r)) == Some(r)
  {
    CellAt(r, 0);
    CellAt(r, 1);
    CellAt(r, 2);
    CellAt(r, 3);
    CellAt(r, 4);
    CellAt(r, 5);
    CellAt(r, 6);
    CellAt(r, 7);
    ReadRowOfLookups(Header, Cells(r), r);
  }

  lemma CellAt(r: Row, i: nat)
    requires i < |Header|
    ensures Lookup(Header, Cells(r), Header[i]) == Some(Cells(r)[i])
  {
    HeaderNamesDistinct();
    LookupAt(Header, Cells(r), i);
  }

  /** A row is read back when every column lookup finds its field. */
  lemma ReadRowOfLookups(header: seq<string>, cells: seq<string>, r: Row)
    requires Lookup(header, cells, "Name") == Some(r.name)
    requires Lookup(header, cells, "URL") == Some(r.url)
    requires Lookup(header, cells, "RemoteTesting") == Some(r.remoteTesting)
    requires Lookup(header, cells, "AdaptiveSupport") == Some(r.adaptiveSupport)
    requires Lookup(header, cells, "Type") == Some(r.assessmentType)
    requires Lookup(header, cells, "Skills") == Some(r.skills)
    requires Lookup(header, cells, "Description") == Some(r.description)
    requires Lookup(header, cells, "Duration") == Some(r.duration)
    ensures ReadRow(header, cells) == Some(r)
  {
  }
}
