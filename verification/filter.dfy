/** The visibility pass `filterList`: which rows of the container it shows and
    which it hides, for a given list of selected tags. */
module Filter {
  import opened Css
  import opened View

  /** `getElementsByClassName(query)` on a child of a row finds something: the
      cell span itself, or the `tags` div or one of its tag spans. */
  predicate ChildHas(c: Child, query: string)
  {
    match c
    case Cell(span) => MatchesClassNames(span.className, query)
    case TagBox(tags) =>
      MatchesClassNames("tags", query) ||
      exists k :: 0 <= k < |tags| && MatchesClassNames(tags[k].className, query)
  }

  /** `row.getElementsByClassName(query).length > 0`: some descendant of the
      row (the row itself excluded) matches the query. */
  predicate RowHas(d: Div, query: string)
  {
    exists j :: 0 <= j < |d.children| && ChildHas(d.children[j], query)
  }

  /** Some selected tag's sanitised form is found in the row. */
  predicate Selects(d: Div, selected: seq<string>)
  {
    exists k :: 0 <= k < |selected| && RowHas(d, Sanitize(selected[k]))
  }

  /** One container child after the pass: the header is left alone; with no
      selection every row is shown; otherwise a row is shown exactly when some
      selected tag is found in it. */
  function FilterRow(d: Div, selected: seq<string>): (r: Div)
    ensures r.className == d.className && r.children == d.children
    ensures d.className == "header" ==> r == d
    ensures selected == [] && d.className != "header" ==> !r.hidden
  {
    if d.className == "header" then d
    else d.(hidden := selected != [] && !Selects(d, selected))
  }

  /** The container after `filterList`. */
  function Filtered(container: seq<Div>, selected: seq<string>): (r: seq<Div>)
    ensures |r| == |container|
    ensures forall i :: 0 <= i < |r| ==>
      r[i].className == container[i].className && r[i].children == container[i].children
  {
    seq(|container|, i requires 0 <= i < |container| => FilterRow(container[i], selected))
  }

  /** With a non-empty selection the pass shows a row exactly when some
      selected tag's sanitised form is found in it. */
  lemma FilteredRows(container: seq<Div>, selected: seq<string>)
    ensures selected != [] ==> forall i :: 0 <= i < |container| && container[i].className != "header" ==>
      (!Filtered(container, selected)[i].hidden <==>
        exists k :: 0 <= k < |selected| && RowHas(container[i], Sanitize(selected[k])))
  {
  }

  /** The result depends only on the current selection and the rows'
      contents, not on what an earlier pass left: no row state persists from
      one pass to the next, and running the pass twice is running it once. */
  lemma {:induction false} FilterForgetsEarlierPasses(container: seq<Div>, earlier: seq<string>, selected: seq<string>)
    ensures Filtered(Filtered(container, earlier), selected) == Filtered(container, selected)
    ensures Filtered(Filtered(container, selected), selected) == Filtered(container, selected)
  {
    var once := Filtered(container, earlier);
    forall i | 0 <= i < |container|
      ensures FilterRow(once[i], selected) == FilterRow(container[i], selected)
    {
      assert once[i].children == container[i].children;
      assert Selects(once[i], selected) == Selects(container[i], selected);
    }
    var twice := Filtered(container, selected);
    forall i | 0 <= i < |container|
      ensures FilterRow(twice[i], selected) == FilterRow(container[i], selected)
    {
      assert twice[i].children == container[i].children;
      assert Selects(twice[i], selected) == Selects(container[i], selected);
    }
  }

  lemma SelectsFromSubset(d: Div, s1: seq<string>, s2: seq<string>)
    requires forall x :: x in s1 ==> x in s2
    requires Selects(d, s1)
    ensures Selects(d, s2)
  {
    var k :| 0 <= k < |s1| && RowHas(d, Sanitize(s1[k]));
    assert s1[k] in s2;
    var k2 :| 0 <= k2 < |s2| && s2[k2] == s1[k];
  }

  /** Only which tags are selected matters: the order of the selection and
      the duplicates in it do not change the outcome. */
  lemma {:induction false} FilterDependsOnTagSet(container: seq<Div>, s1: seq<string>, s2: seq<string>)
    requires forall x :: x in s1 <==> x in s2
    ensures Filtered(container, s1) == Filtered(container, s2)
  {
    assert s1 == [] <==> s2 == [] by {
      if s1 != [] { assert s1[0] in s2; }
      if s2 != [] { assert s2[0] in s1; }
    }
    forall i | 0 <= i < |container|
      ensures FilterRow(container[i], s1) == FilterRow(container[i], s2)
    {
      if Selects(container[i], s1) { SelectsFromSubset(container[i], s1, s2); }
      if Selects(container[i], s2) { SelectsFromSubset(container[i], s2, s1); }
    }
  }

  /** Selecting one more tag (OR semantics) never hides a row a non-empty
      selection shows. */
  lemma {:induction false} FilterMonotone(container: seq<Div>, selected: seq<string>, tag: string, i: nat)
    requires selected != [] && i < |container|
    requires !Filtered(container, selected)[i].hidden
    ensures !Filtered(container, selected + [tag])[i].hidden
  {
    var d := container[i];
    if d.className != "header" {
      var k :| 0 <= k < |selected| && RowHas(d, Sanitize(selected[k]));
      assert (selected + [tag])[k] == selected[k];
    }
  }

  /** A row that shows a tag span for a selected, non-empty tag is shown. */
  lemma {:induction false} SelectedTagShowsRow(d: Div, selected: seq<string>, tag: string, j: nat, k: nat)
    requires tag in selected && tag != "" && d.className != "header"
    requires j < |d.children| && d.children[j].TagBox?
    requires k < |d.children[j].tags| && d.children[j].tags[k] == TagSpan(tag)
    ensures !FilterRow(d, selected).hidden
  {
    SanitizedClassIsFound("tag", tag);
    assert "tag " + Sanitize(tag) == "tag" + " " + Sanitize(tag);
    assert MatchesClassNames(d.children[j].tags[k].className, Sanitize(tag));
    assert ChildHas(d.children[j], Sanitize(tag));
    var m :| 0 <= m < |selected| && selected[m] == tag;
    assert RowHas(d, Sanitize(selected[m]));
  }

  /** In a freshly rendered table, selecting a non-empty tag shows every row
      whose record has that tag in a Tags cell. */
  lemma {:induction false} SelectedTagShowsItsRecords(rs: RecordSet, selected: seq<string>, tag: string, i: nat, j: nat)
    requires WellFormed(rs) && tag in selected && tag != ""
    requires 1 <= i <= |rs.sortedRecordIds| && j < |rs.columns|
    requires var v := GetValue(rs.records[rs.sortedRecordIds[i - 1]], rs.columns[j].name);
      IsTagsCell(rs.columns[j], v) && tag in Text.Split(v.value, ';')
    ensures !Filtered(Table(rs), selected)[i].hidden
  {
    TableShape(rs);
    var d := Table(rs)[i];
    var v := GetValue(rs.records[rs.sortedRecordIds[i - 1]], rs.columns[j].name);
    var parts := Text.Split(v.value, ';');
    var k :| 0 <= k < |parts| && parts[k] == tag;
    assert d.children[j] == TagBox(TagSpans(parts));
    SelectedTagShowsRow(d, selected, tag, j, k);
  }
}
