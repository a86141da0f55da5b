/** The `FilteredList` control: the container of table rows, the palette of
    selectable chips and the `_selectedTags` list it keeps between updates. */
module Widget {
  import opened Text
  import opened Css
  import opened Selection
  import opened View
  import opened Filter

  /** How many chips of the palette show `text` and do not carry the
      `unselected` class. */
  function SelectedCount(palette: seq<Chip>, text: string): nat
  {
    if palette == [] then 0
    else
      var last := palette[|palette| - 1];
      SelectedCount(palette[..|palette| - 1], text) + (if !last.unselected && last.text == text then 1 else 0)
  }

  /** Chip `i` with its `unselected` class toggled. */
  function Flip(palette: seq<Chip>, i: nat): (r: seq<Chip>)
    requires i < |palette|
    ensures |r| == |palette| && r[i].unselected == !palette[i].unselected && r[i].text == palette[i].text
    ensures forall j :: 0 <= j < |r| && j != i ==> r[j] == palette[j]
  {
    palette[i := palette[i].(unselected := !palette[i].unselected)]
  }

  /** Flipping chip `i` counts its text once more among the selected chips
      when it was unselected, once less when it was selected, and changes
      nothing for any other text. */
  lemma {:induction false} FlipCounts(palette: seq<Chip>, i: nat, text: string)
    requires i < |palette|
    ensures SelectedCount(Flip(palette, i), text) ==
      if text != palette[i].text then SelectedCount(palette, text)
      else if palette[i].unselected then SelectedCount(palette, text) + 1
      else SelectedCount(palette, text) - 1
  {
    var m := |palette| - 1;
    var flipped := Flip(palette, i);
    if i < m {
      var pm := palette[..m];
      assert pm[i] == palette[i];
      FlipCounts(pm, i, text);
      assert Flip(pm, i) == flipped[..m];
      assert flipped[m] == palette[m];
    } else {
      assert flipped[..m] == palette[..m];
    }
  }

  /** No chip of a fresh palette is selected. */
  lemma {:induction false} FreshPaletteHasNoSelection(tags: seq<string>, text: string)
    ensures SelectedCount(Palette(tags), text) == 0
  {
    if tags != [] {
      var m := |tags| - 1;
      assert Palette(tags)[..m] == Palette(tags[..m]);
      FreshPaletteHasNoSelection(tags[..m], text);
    }
  }

  class FilteredList {
    /** The children of the `table-like` container. */
    var container: seq<Div>
    /** The chips of the `selectable-tags` palette. */
    var palette: seq<Chip>
    /** `_selectedTags`. */
    var selectedTags: seq<string>

    /** Every selected chip's text is in `_selectedTags`, as often as selected
        chips carry it. After a re-render the list may hold more than that:
        tags selected before the update stay in it while every new chip starts
        unselected. */
    ghost predicate Consistent()
      reads this
    {
      forall text :: SelectedCount(palette, text) <= multiset(selectedTags)[text]
    }

    /** The control after `init`: an empty container, an empty palette and no
        selected tag. */
    constructor ()
      ensures container == [] && palette == [] && selectedTags == []
      ensures Consistent()
    {
      container := [];
      palette := [];
      selectedTags := [];
    }

    /** `updateView`: unless the record set is loading, rebuild the table and
        the palette from scratch. `_selectedTags` is kept as it is and no
        filter pass runs, so every new row starts shown. */
    method UpdateView(rs: RecordSet)
      requires WellFormed(rs) && Consistent()
      modifies this
      ensures Consistent()
      ensures selectedTags == old(selectedTags)
      ensures rs.loading ==> container == old(container) && palette == old(palette)
      ensures !rs.loading ==> container == Table(rs) && palette == Palette(UniqueTags(AllTags(rs)))
    {
      if rs.loading {
        return;
      }
      var cols := rs.columns;
      var ids := rs.sortedRecordIds;
      container := [];
      var allTags: seq<string> := [];
      var headers := BuildHeader(cols);
      container := container + [headers];

      var i := 0;
      while i < |ids|
        invariant 0 <= i <= |ids|
        invariant container == [Header(cols)] + Rows(rs, i)
        invariant allTags == AllTagsUpTo(rs, i)
        invariant selectedTags == old(selectedTags) && palette == old(palette)
      {
        var recordDiv, recordTags := BuildRow(cols, rs.records[ids[i]]);
        assert AllTagsUpTo(rs, i + 1) == allTags + recordTags;
        allTags := allTags + recordTags;
        assert Rows(rs, i + 1) == Rows(rs, i) + [recordDiv];
        container := container + [recordDiv];
        i := i + 1;
      }
      assert container == Table(rs);

      var uniqueTags := UniqueTags(allTags);
      palette := BuildPalette(uniqueTags);
      forall text ensures SelectedCount(palette, text) == 0 {
        FreshPaletteHasNoSelection(uniqueTags, text);
      }
    }

    /** The header div: one span per column showing its display name. */
    static method BuildHeader(cols: seq<Column>) returns (headers: Div)
      ensures headers == Header(cols)
      ensures headers.className == "header" && |headers.children| == |cols|
    {
      var cells: seq<Child> := [];
      var j := 0;
      while j < |cols|
        invariant 0 <= j <= |cols|
        invariant |cells| == j
        invariant forall k :: 0 <= k < j ==> cells[k] == HeaderCell(cols[k])
      {
        cells := cells + [Cell(Span(if cols[j].displayName != "Tags" then "element " else "", cols[j].displayName))];
        j := j + 1;
      }
      headers := Div("header", cells, false);
    }

    /** The row div of one record, with one child per column, and the tags
        that record adds to `allTags`. */
    static method BuildRow(cols: seq<Column>, rec: Record) returns (recordDiv: Div, tags: seq<string>)
      ensures recordDiv == RecordRow(cols, rec)
      ensures tags == RecordTags(cols, rec)
    {
      var children: seq<Child> := [];
      tags := [];
      var j := 0;
      while j < |cols|
        invariant 0 <= j <= |cols|
        invariant |children| == j
        invariant forall k :: 0 <= k < j ==> children[k] == RecordCell(cols[k], rec)
        invariant tags == RecordTags(cols[..j], rec)
      {
        var child, cellTags := BuildCell(cols[j], rec);
        RecordTagsPrefix(cols, j, rec);
        tags := tags + cellTags;
        children := children + [child];
        j := j + 1;
      }
      assert cols[..|cols|] == cols;
      recordDiv := Div("row", children, false);
    }

    /** The body of the per-column `forEach` in the row loop of `updateView`
        (FilteredList/index.ts:72-96), executed for one column: the `tags` div
        with one chip span per piece of a non-null Tags value, otherwise a
        plain span; and the pieces it adds to `allTags`. `View.RecordCell` is
        the value it is proved to build. */
    static method BuildCell(col: Column, rec: Record) returns (child: Child, cellTags: seq<string>)
      ensures child == RecordCell(col, rec)
      ensures cellTags == (var v := GetValue(rec, col.name); if IsTagsCell(col, v) then Split(v.value, ';') else [])
      ensures child.TagBox? <==> IsTagsCell(col, GetValue(rec, col.name))
    {
      var value := GetValue(rec, col.name);
      if col.displayName == "Tags" && value.Some? {
        cellTags := Split(value.value, ';');
        var tagDiv := BuildTagSpans(cellTags);
        child := TagBox(tagDiv);
      } else {
        cellTags := [];
        child := Cell(Span("element " + Sanitize(col.displayName), TextOf(value)));
      }
    }

    /** The chip spans of one Tags cell, one per piece, empty pieces included. */
    static method BuildTagSpans(recordTags: seq<string>) returns (spans: seq<Span>)
      ensures spans == TagSpans(recordTags)
      ensures forall k :: 0 <= k < |spans| ==> spans[k].text == recordTags[k]
    {
      spans := [];
      var t := 0;
      while t < |recordTags|
        invariant 0 <= t <= |recordTags|
        invariant |spans| == t
        invariant forall k :: 0 <= k < t ==> spans[k] == TagSpan(recordTags[k])
      {
        spans := spans + [Span("tag " + Sanitize(recordTags[t]), recordTags[t])];
        t := t + 1;
      }
    }

    /** The palette: one unselected chip per distinct tag, in order. */
    static method BuildPalette(uniqueTags: seq<string>) returns (chips: seq<Chip>)
      ensures chips == Palette(uniqueTags)
      ensures forall k :: 0 <= k < |chips| ==> chips[k].unselected && chips[k].key == Sanitize(chips[k].text)
    {
      chips := [];
      var t := 0;
      while t < |uniqueTags|
        invariant 0 <= t <= |uniqueTags|
        invariant |chips| == t
        invariant forall k :: 0 <= k < t ==> chips[k] == Chip(uniqueTags[k], Sanitize(uniqueTags[k]), true)
      {
        chips := chips + [Chip(uniqueTags[t], Sanitize(uniqueTags[t]), true)];
        t := t + 1;
      }
    }

    /** The click handler of chip `i`: flip its `unselected` class, then, by
        its NEW state, append its text to `_selectedTags` (now selected) or
        `splice` out `indexOf(text)` (now unselected), and run the filter pass.
        Because every selected chip's text is in the list, a deselect always
        removes one copy of that very text, never the last element instead. */
    method Click(i: nat)
      requires i < |palette| && Consistent()
      modifies this
      ensures Consistent()
      ensures palette == old(palette)[i := old(palette)[i].(unselected := !old(palette)[i].unselected)]
      ensures selectedTags == AfterClick(old(selectedTags), old(palette)[i].text, palette[i].unselected)
      ensures palette[i].unselected ==>
        old(palette)[i].text in old(selectedTags) &&
        multiset(selectedTags) == multiset(old(selectedTags)) - multiset{old(palette)[i].text}
      ensures !palette[i].unselected ==> selectedTags == old(selectedTags) + [old(palette)[i].text]
      ensures container == Filtered(old(container), selectedTags)
    {
      var chip := palette[i];
      if chip.unselected {
        chip := chip.(unselected := false);
      } else {
        chip := chip.(unselected := true);
      }
      ghost var before := palette;
      ghost var selectedBefore := selectedTags;
      forall text ensures SelectedCount(Flip(before, i), text) == SelectedCount(before, text)
        + (if text != chip.text then 0 else if chip.unselected then -1 else 1)
      {
        FlipCounts(before, i, text);
      }
      palette := palette[i := chip];
      assert palette == Flip(before, i);
      if chip.unselected {
        assert SelectedCount(before, chip.text) >= 1;
        assert chip.text in selectedTags;
        RemoveOneRemoves(selectedTags, chip.text);
        selectedTags := RemoveOne(selectedTags, chip.text);
      } else {
        selectedTags := selectedTags + [chip.text];
      }
      assert forall text :: SelectedCount(palette, text) <= multiset(selectedTags)[text] by {
        forall text ensures SelectedCount(palette, text) <= multiset(selectedTags)[text] {
          assert SelectedCount(before, text) <= multiset(selectedBefore)[text];
        }
      }
      FilterList();
    }

    /** `filterList`: with no selected tag, show every row; otherwise show a
        row when some selected tag's sanitised form is found in it and hide it
        when none is. The header is skipped either way. */
    method FilterList()
      modifies this
      ensures container == Filtered(old(container), selectedTags)
      ensures palette == old(palette) && selectedTags == old(selectedTags)
    {
      if |selectedTags| == 0 {
        var i := 0;
        while i < |container|
          invariant 0 <= i <= |container| == |old(container)|
          invariant forall k :: 0 <= k < i ==> container[k] == FilterRow(old(container)[k], selectedTags)
          invariant forall k :: i <= k < |container| ==> container[k] == old(container)[k]
          invariant palette == old(palette) && selectedTags == old(selectedTags)
        {
          if container[i].className != "header" {
            container := container[i := container[i].(hidden := false)];
          }
          i := i + 1;
        }
        return;
      }
      var i := 0;
      while i < |container|
        invariant 0 <= i <= |container| == |old(container)|
        invariant forall k :: 0 <= k < i ==> container[k] == FilterRow(old(container)[k], selectedTags)
        invariant forall k :: i <= k < |container| ==> container[k] == old(container)[k]
        invariant palette == old(palette) && selectedTags == old(selectedTags)
      {
        var row := container[i];
        if row.className != "header" {
          var tagFound := TagFound(row, selectedTags);
          row := row.(hidden := !tagFound);
          container := container[i := row];
        }
        i := i + 1;
      }
    }
  
    /** The inner loop of `filterList` over `_selectedTags` for one row: the
        `tagFound` flag ends up true exactly when some selected tag's sanitised
        form is found among the row's descendants. */
    static method TagFound(row: Div, selected: seq<string>) returns (tagFound: bool)
      ensures tagFound == Selects(row, selected)
    {
      tagFound := false;
      var j := 0;
      while j < |selected|
        invariant 0 <= j <= |selected|
        invariant tagFound <==> exists k :: 0 <= k < j && RowHas(row, Sanitize(selected[k]))
      {
        var sanitizedTag := ReplaceFirst(LowerCase(selected[j]), ' ', '-');
        if tagFound || RowHas(row, sanitizedTag) {
          tagFound := true;
        }
        j := j + 1;
      }
    }
  }
}
