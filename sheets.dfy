/** The part of an EPPlus worksheet the catalogue's spreadsheet export
    writes and its import reads: cell values by 1-based (row, column),
    the last row of the used range, and picture drawings with their
    0-based anchor cell. Number formats, styles, sizes and column widths
    are not modelled; a cell holds a string. */
module Sheets {
  import opened Text
  import opened FileStore

  /** An ExcelPicture: its name, the 0-based row and column of the cell
      its top-left corner is anchored to (From.Row, From.Column), and the
      bytes its Image property gives back (None when it gives none). */
  datatype Picture = Picture(name: string, fromRow: int, fromColumn: int, image: Option<Bytes>)

  /** A worksheet: cell values (a missing key is a null value), the last
      row of the used range (Dimension.End.Row; None when the sheet has no
      Dimension), the picture drawings in drawing order, and the number of
      drawings of any kind. */
  datatype Sheet = Sheet(
    name: string,
    cells: map<(int, int), string>,
    endRow: Option<int>,
    pictures: seq<Picture>,
    drawings: nat)

  /** Cells[row, col].GetValue<string>(): null for an empty cell. */
  function CellValue(s: Sheet, row: int, col: int): Option<string> {
    if (row, col) in s.cells then Some(s.cells[(row, col)]) else None
  }

  /** Cells[row, col].Text: "" for an empty cell. */
  function CellText(s: Sheet, row: int, col: int): (r: string)
    ensures r == CellValue(s, row, col).GetOr("")
  {
    if (row, col) in s.cells then s.cells[(row, col)] else ""
  }

  function MaxRow(e: Option<int>, row: int): int {
    if e.Some? && e.value > row then e.value else row
  }

  /** Cells[row, col].Value = v: a string is stored and extends the used
      range to its row; null leaves the cell empty. */
  function SetCell(s: Sheet, row: int, col: int, v: Option<string>): (r: Sheet)
    ensures r.name == s.name && r.pictures == s.pictures && r.drawings == s.drawings
    ensures CellValue(r, row, col) == v
    ensures forall k: (int, int) :: k != (row, col) ==> (k in r.cells <==> k in s.cells) && (k in s.cells ==> r.cells[k] == s.cells[k])
    ensures v.None? ==> r.endRow == s.endRow
    ensures v.Some? ==> r.endRow == Some(MaxRow(s.endRow, row))
  {
    match v
    case None => s.(cells := s.cells - {(row, col)})
    case Some(x) => s.(cells := s.cells[(row, col) := x], endRow := Some(MaxRow(s.endRow, row)))
  }

  /** Writing vals[k] into column k + 1 of a row, column by column. */
  function PutRow(s: Sheet, row: int, vals: seq<Option<string>>): (r: Sheet)
    ensures r.name == s.name && r.pictures == s.pictures && r.drawings == s.drawings
    ensures forall c :: 1 <= c <= |vals| ==> CellValue(r, row, c) == vals[c - 1]
    ensures forall k: (int, int) :: !(k.0 == row && 1 <= k.1 <= |vals|) ==> (k in r.cells <==> k in s.cells) && (k in s.cells ==> r.cells[k] == s.cells[k])
    ensures (forall k :: 0 <= k < |vals| ==> vals[k].None?) ==> r.endRow == s.endRow
    ensures (exists k :: 0 <= k < |vals| && vals[k].Some?) ==> r.endRow == Some(MaxRow(s.endRow, row))
    decreases |vals|
  {
    if vals == [] then s
    else
      var n := |vals| - 1;
      var pre := PutRow(s, row, vals[..n]);
      assert forall k :: 0 <= k < n ==> vals[..n][k] == vals[k];
      var r := SetCell(pre, row, n + 1, vals[n]);
      assert forall c :: 1 <= c <= n ==> CellValue(r, row, c) == CellValue(pre, row, c) by {
        forall c | 1 <= c <= n ensures CellValue(r, row, c) == CellValue(pre, row, c) {
          assert (row, c) != (row, n + 1);
        }
      }
      r
  }

  /** The picture that sits in a row's photo cell (column 13, the 0-based
      column 12). */
  predicate AnchoredAt(p: Picture, row: int) {
    p.fromRow + 1 == row && p.fromColumn + 1 == 13
  }

  /** pictures.FirstOrDefault(p => p.From.Row + 1 == row && p.From.Column
      + 1 == 13), by its index in the drawing order. */
  function FirstPicture(pics: seq<Picture>, row: int): (r: Option<nat>)
    ensures r.Some? ==> r.value < |pics| && AnchoredAt(pics[r.value], row)
    ensures r.Some? ==> forall j :: 0 <= j < r.value ==> !AnchoredAt(pics[j], row)
    ensures r.None? ==> forall j :: 0 <= j < |pics| ==> !AnchoredAt(pics[j], row)
    decreases |pics|
  {
    if pics == [] then None
    else if AnchoredAt(pics[0], row) then Some(0)
    else match FirstPicture(pics[1..], row)
      case None => None
      case Some(k) => Some(k + 1)
  }

  /** Adding a drawing does not change which picture an earlier match
      found; it is found only for a row that had none. */
  lemma {:induction false} FirstPictureSnoc(pics: seq<Picture>, p: Picture, row: int)
    ensures FirstPicture(pics + [p], row) ==
      if FirstPicture(pics, row).Some? then FirstPicture(pics, row)
      else if AnchoredAt(p, row) then Some(|pics|) else None
    decreases |pics|
  {
    if pics != [] {
      assert (pics + [p])[0] == pics[0];
      assert (pics + [p])[1..] == pics[1..] + [p];
      FirstPictureSnoc(pics[1..], p, row);
    }
  }

  /** Whether EPPlus loads a stream as a picture. It reads the image's
      format and size from the bytes, so an empty stream never loads; which
      other byte strings decode is an input (decodes), since the image
      decoders are not part of this model. */
  predicate Loadable(decodes: Bytes -> bool, image: Bytes) {
    image != [] && decodes(image)
  }

  /** ws (the EPPlus worksheet object) as the export builds it. */
  class Worksheet {
    var name: string
    var cells: map<(int, int), string>
    var endRow: Option<int>
    var pictures: seq<Picture>

    function View(): Sheet
      reads this
    {
      Sheet(name, cells, endRow, pictures, |pictures|)
    }

    /** Workbook.Worksheets.Add(name): an empty sheet. */
    constructor (name: string)
      ensures View() == Sheet(name, map[], None, [], 0)
    {
      this.name := name;
      cells := map[];
      endRow := None;
      pictures := [];
    }

    /** Cells[row, col].Value = v. */
    method SetValue(row: int, col: int, v: Option<string>)
      modifies this
      ensures View() == SetCell(old(View()), row, col, v)
    {
      match v
      case None =>
        cells := cells - {(row, col)};
      case Some(x) =>
        cells := cells[(row, col) := x];
        endRow := Some(MaxRow(endRow, row));
    }

    /** Drawings.AddPicture(name, stream) followed by setting From.Row and
        From.Column; the picture gives its image bytes back. When the
        stream does not load as an image, AddPicture throws (loaded is
        false) and the sheet is as before. */
    method AddPicture(picName: string, image: Bytes, fromRow: int, fromColumn: int, decodes: Bytes -> bool) returns (loaded: bool)
      modifies this
      ensures loaded <==> Loadable(decodes, image)
      ensures loaded ==> View() == old(View()).(pictures := old(View()).pictures + [Picture(picName, fromRow, fromColumn, Some(image))],
                                                drawings := old(View()).drawings + 1)
      ensures !loaded ==> View() == old(View())
    {
      loaded := Loadable(decodes, image);
      if loaded {
        pictures := pictures + [Picture(picName, fromRow, fromColumn, Some(image))];
      }
    }
  }
}
