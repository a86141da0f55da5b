/** What `updateView` renders, as plain data: the record set it reads, the
    table it builds in the `table-like` container, the tags it collects and the
    palette of selectable chips it builds from them. */
module View {
  import opened Text
  import opened Css

  datatype Option<T> = None | Some(value: T)

  /** A column of the host's record set. */
  datatype Column = Column(name: string, displayName: string)

  /** A record, looked up by column name; a name it does not map is a null cell. */
  type Record = map<string, string>

  /** The record set the host passes on each update: its loading flag, its
      columns, the record ids in sort order and the records by id. */
  datatype RecordSet = RecordSet(
    loading: bool,
    columns: seq<Column>,
    sortedRecordIds: seq<string>,
    records: map<string, Record>)

  /** The host's promise: every id in the sort order names a record. */
  predicate WellFormed(rs: RecordSet)
  {
    forall id :: id in rs.sortedRecordIds ==> id in rs.records
  }

  /** `getValue(name)`: the cell's value, or null. */
  function GetValue(rec: Record, name: string): Option<string>
  {
    if name in rec then Some(rec[name]) else None
  }

  /** The text a plain cell shows: a null value shows as empty text. */
  function TextOf(v: Option<string>): string
  {
    if v.Some? then v.value else ""
  }

  /** A `span` element: its `className` attribute and its text. */
  datatype Span = Span(className: string, text: string)

  /** A child of a row: a plain cell, or the `tags` div holding one span per tag. */
  datatype Child = Cell(span: Span) | TagBox(tags: seq<Span>)

  /** A direct child of the container: the header div or a row div, with its
      children and whether its style says `display: none`. */
  datatype Div = Div(className: string, children: seq<Child>, hidden: bool)

  /** A chip of the palette: its text, its sanitised class and whether it
      carries the `unselected` class. */
  datatype Chip = Chip(text: string, key: string, unselected: bool)

  /** The header cell of a column: marked `element` unless its display name is
      "Tags". */
  function HeaderCell(col: Column): Child
  {
    Cell(Span(if col.displayName != "Tags" then "element " else "", col.displayName))
  }

  function Header(cols: seq<Column>): (r: Div)
    ensures r.className == "header" && !r.hidden && |r.children| == |cols|
    ensures forall j :: 0 <= j < |cols| ==> r.children[j].Cell? && r.children[j].span.text == cols[j].displayName
  {
    Div("header", seq(|cols|, j requires 0 <= j < |cols| => HeaderCell(cols[j])), false)
  }

  /** A cell is rendered as tags when its column is displayed as "Tags" and
      its value is not null. */
  predicate IsTagsCell(col: Column, v: Option<string>)
  {
    col.displayName == "Tags" && v.Some?
  }

  /** The chip span of one tag inside a row. */
  function TagSpan(tag: string): Span
  {
    Span("tag " + Sanitize(tag), tag)
  }

  function TagSpans(tags: seq<string>): seq<Span>
  {
    seq(|tags|, k requires 0 <= k < |tags| => TagSpan(tags[k]))
  }

  /** The child a column contributes to a record's row. */
  function RecordCell(col: Column, rec: Record): (r: Child)
    ensures r.TagBox? <==> IsTagsCell(col, GetValue(rec, col.name))
    ensures r.Cell? ==> r.span.text == TextOf(GetValue(rec, col.name))
  {
    var v := GetValue(rec, col.name);
    if IsTagsCell(col, v) then TagBox(TagSpans(Split(v.value, ';')))
    else Cell(Span("element " + Sanitize(col.displayName), TextOf(v)))
  }

  function RecordRow(cols: seq<Column>, rec: Record): (r: Div)
    ensures r.className == "row" && !r.hidden && |r.children| == |cols|
  {
    Div("row", seq(|cols|, j requires 0 <= j < |cols| => RecordCell(cols[j], rec)), false)
  }

  /** The rows of the first `n` records in sort order. */
  function Rows(rs: RecordSet, n: nat): seq<Div>
    requires WellFormed(rs) && n <= |rs.sortedRecordIds|
  {
    seq(n, i requires 0 <= i < n => RecordRow(rs.columns, rs.records[rs.sortedRecordIds[i]]))
  }

  /** The container's children after an update: the header, then one row per record. */
  function Table(rs: RecordSet): (r: seq<Div>)
    requires WellFormed(rs)
    ensures |r| == |rs.sortedRecordIds| + 1 && r[0] == Header(rs.columns)
    ensures forall i :: 1 <= i < |r| ==> r[i].className == "row" && !r[i].hidden
  {
    [Header(rs.columns)] + Rows(rs, |rs.sortedRecordIds|)
  }

  /** The tags one record contributes to `allTags`: its non-null Tags cells,
      in column order, each split on ';' with its empty pieces kept. */
  function RecordTags(cols: seq<Column>, rec: Record): (r: seq<string>)
    ensures forall t :: t in r ==> ';' !in t
  {
    if cols == [] then []
    else
      var col := cols[|cols| - 1];
      var v := GetValue(rec, col.name);
      RecordTags(cols[..|cols| - 1], rec) + (if IsTagsCell(col, v) then Split(v.value, ';') else [])
  }

  /** Extending the columns by one adds that column's tags at the end. */
  lemma RecordTagsPrefix(cols: seq<Column>, j: nat, rec: Record)
    requires j < |cols|
    ensures RecordTags(cols[..j + 1], rec) == RecordTags(cols[..j], rec) +
      (var v := GetValue(rec, cols[j].name); if IsTagsCell(cols[j], v) then Split(v.value, ';') else [])
  {
    assert cols[..j + 1][..j] == cols[..j];
  }

  /** `allTags` after the first `n` records. */
  function AllTagsUpTo(rs: RecordSet, n: nat): (r: seq<string>)
    requires WellFormed(rs) && n <= |rs.sortedRecordIds|
    ensures forall t :: t in r ==> ';' !in t
  {
    if n == 0 then []
    else AllTagsUpTo(rs, n - 1) + RecordTags(rs.columns, rs.records[rs.sortedRecordIds[n - 1]])
  }

  function AllTags(rs: RecordSet): seq<string>
    requires WellFormed(rs)
  {
    AllTagsUpTo(rs, |rs.sortedRecordIds|)
  }

  /** `allTags.filter((thing, i, arr) => arr.findIndex(t => t === thing) === i
      && thing !== "")`, applied to the first `n` elements: it keeps each
      element at its first occurrence, unless it is the empty string. The
      result has no duplicates and no empty string, holds every other element
      of `all`, and lists them in the order of their first occurrences. */
  function UniqueTagsUpTo(all: seq<string>, n: nat): (r: seq<string>)
    requires n <= |all|
    ensures forall i, j :: 0 <= i < j < |r| ==> r[i] != r[j]
    ensures "" !in r
    ensures forall x :: x in r <==> x in all[..n] && x != ""
    ensures forall i, j :: 0 <= i < j < |r| ==> IndexOf(all, r[i]) < IndexOf(all, r[j])
    ensures forall i :: 0 <= i < |r| ==> IndexOf(all, r[i]) < n
  {
    if n == 0 then []
    else
      var prev := UniqueTagsUpTo(all, n - 1);
      var x := all[n - 1];
      assert all[..n] == all[..n - 1] + [x];
      if IndexOf(all, x) == n - 1 && x != "" then
        assert x !in all[..n - 1];
        prev + [x]
      else
        assert x == "" || x in all[..n - 1] by {
          if x != "" {
            var k := IndexOf(all, x);
            assert k < n - 1 && all[k] == x;
            assert all[..n - 1][k] == x;
          }
        }
        prev
  }

  function UniqueTags(all: seq<string>): (r: seq<string>)
    ensures forall i, j :: 0 <= i < j < |r| ==> r[i] != r[j]
    ensures forall x :: x in r <==> x in all && x != ""
  {
    assert all[..|all|] == all;
    UniqueTagsUpTo(all, |all|)
  }

  /** The chips built for the palette: one per tag, all unselected. */
  function Palette(tags: seq<string>): (r: seq<Chip>)
    ensures |r| == |tags|
    ensures forall k :: 0 <= k < |r| ==> r[k].text == tags[k] && r[k].key == Sanitize(r[k].text) && r[k].unselected
  {
    seq(|tags|, k requires 0 <= k < |tags| => Chip(tags[k], Sanitize(tags[k]), true))
  }

  /** The texts of the tag spans among a row's children, in order. */
  function ChildTags(children: seq<Child>): seq<string>
  {
    if children == [] then []
    else
      var last := children[|children| - 1];
      ChildTags(children[..|children| - 1])
        + (if last.TagBox? then seq(|last.tags|, k requires 0 <= k < |last.tags| => last.tags[k].text) else [])
  }

  /** The texts of all tag spans in a sequence of rows, row by row. */
  function TableTags(rows: seq<Div>): seq<string>
  {
    if rows == [] then [] else TableTags(rows[..|rows| - 1]) + ChildTags(rows[|rows| - 1].children)
  }

  /** The table after an update has exactly one header followed by one row per
      record id, in order; every row is shown and has one child per column, and
      the child of a column is a tags box exactly when the column is displayed
      as "Tags" and the record's value there is not null. */
  lemma TableShape(rs: RecordSet)
    requires WellFormed(rs)
    ensures |Table(rs)| == |rs.sortedRecordIds| + 1
    ensures Table(rs)[0] == Header(rs.columns) && |Table(rs)[0].children| == |rs.columns|
    ensures forall i :: 1 <= i < |Table(rs)| ==>
      Table(rs)[i] == RecordRow(rs.columns, rs.records[rs.sortedRecordIds[i - 1]])
    ensures forall i :: 1 <= i < |Table(rs)| ==>
      Table(rs)[i].className == "row" && !Table(rs)[i].hidden && |Table(rs)[i].children| == |rs.columns|
    ensures forall i, j :: 1 <= i < |Table(rs)| && 0 <= j < |rs.columns| ==>
      (Table(rs)[i].children[j].TagBox? <==>
        IsTagsCell(rs.columns[j], GetValue(rs.records[rs.sortedRecordIds[i - 1]], rs.columns[j].name)))
  {
  }

  /** The tag spans of one record's row show exactly the tags the record adds
      to `allTags`, in the same order. */
  lemma {:induction false} RowTagsAreRecordTags(cols: seq<Column>, rec: Record)
    ensures ChildTags(RecordRow(cols, rec).children) == RecordTags(cols, rec)
  {
    var children := RecordRow(cols, rec).children;
    if cols != [] {
      var m := |cols| - 1;
      assert children[..m] == RecordRow(cols[..m], rec).children;
      RowTagsAreRecordTags(cols[..m], rec);
      var v := GetValue(rec, cols[m].name);
      if IsTagsCell(cols[m], v) {
        var parts := Split(v.value, ';');
        var spans := TagSpans(parts);
        assert seq(|spans|, k requires 0 <= k < |spans| => spans[k].text) == parts;
      }
    }
  }

  /** `allTags` is exactly the sequence of tag spans in the rendered rows, in
      table order: every collected tag is shown, and nothing else is. */
  lemma {:induction false} AllTagsAreRenderedTags(rs: RecordSet, n: nat)
    requires WellFormed(rs) && n <= |rs.sortedRecordIds|
    ensures TableTags(Rows(rs, n)) == AllTagsUpTo(rs, n)
  {
    if n > 0 {
      assert Rows(rs, n)[..n - 1] == Rows(rs, n - 1);
      AllTagsAreRenderedTags(rs, n - 1);
      RowTagsAreRecordTags(rs.columns, rs.records[rs.sortedRecordIds[n - 1]]);
    }
  }

  /** Every chip of the palette names a tag that some rendered row shows. */
  lemma PaletteTagsAreRendered(rs: RecordSet)
    requires WellFormed(rs)
    ensures forall c :: c in Palette(UniqueTags(AllTags(rs))) ==>
      c.unselected && c.key == Sanitize(c.text) && c.text in TableTags(Rows(rs, |rs.sortedRecordIds|))
  {
    AllTagsAreRenderedTags(rs, |rs.sortedRecordIds|);
    var all := AllTags(rs);
    assert all[..|all|] == all;
  }
}
