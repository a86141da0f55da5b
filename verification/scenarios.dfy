/** Concrete runs of the widget on small record sets. */
module Scenarios {
  import opened Text
  import opened Css
  import opened Selection
  import opened View
  import opened Filter
  import opened Widget

  /** Sanitising, given the lowercased name and the position of its first
      space. */
  lemma SanitizeAt(name: string, low: string, k: nat, r: string)
    requires LowerCase(name) == low && k < |low| && low[k] == ' ' && ' ' !in low[..k]
    requires r == low[k := '-']
    ensures Sanitize(name) == r
  {
    IndexOfAt(low, ' ', k);
  }

  lemma LowerRowLabel()
    ensures LowerCase("Row Label") == "row label"
  {
    var low := "row label";
    var l := LowerCase("Row Label");
    forall i | 0 <= i < 9 ensures l[i] == low[i] {
      assert l[i] == ToLower("Row Label"[i]);
    }
  }

  lemma LowerDarkBlueGreen()
    ensures LowerCase("Dark Blue Green") == "dark blue green"
  {
    var low := "dark blue green";
    var l := LowerCase("Dark Blue Green");
    forall i | 0 <= i < 15 ensures l[i] == low[i] {
      assert l[i] == ToLower("Dark Blue Green"[i]);
    }
  }

  /** A two-word display name becomes one class: "Row Label" gives
      "row-label". */
  lemma SanitizeTwoWords()
    ensures Sanitize("Row Label") == "row-label"
  {
    LowerRowLabel();
    var low := "row label";
    assert low[..3] == "row";
    SanitizeAt("Row Label", low, 3, "row-label");
  }

  /** Only the first space is replaced: "Dark Blue Green" gives
      "dark-blue green", which a class query reads as two classes. */
  lemma SanitizeThreeWords()
    ensures Sanitize("Dark Blue Green") == "dark-blue green"
  {
    LowerDarkBlueGreen();
    var low := "dark blue green";
    assert low[..4] == "dark";
    SanitizeAt("Dark Blue Green", low, 4, "dark-blue green");
  }

  /** A deselect of a text that is not in the list removes its last element. */
  lemma SpliceMinusOneExample()
    ensures RemoveOne(["Red", "Blue"], "Green") == ["Red"]
  {
    RemoveOneRemoves(["Red", "Blue"], "Green");
  }

  /** With no records the container holds only the header and the palette is
      empty. */
  lemma {:induction false} NoRecords(cols: seq<Column>)
    ensures var rs := RecordSet(false, cols, [], map[]);
      Table(rs) == [Header(cols)] && Palette(UniqueTags(AllTags(rs))) == []
  {
  }

  /** "Red;Blue" then "Blue;Green" give the palette Red, Blue, Green. */
  lemma {:induction false} DistinctPaletteExample()
    ensures UniqueTags(["Red", "Blue", "Blue", "Green"]) == ["Red", "Blue", "Green"]
  {
    var all := ["Red", "Blue", "Blue", "Green"];
    IndexOfAt(all, "Red", 0);
    IndexOfAt(all, "Blue", 1);
    IndexOfAt(all, "Green", 3);
    assert UniqueTagsUpTo(all, 1) == ["Red"];
    assert UniqueTagsUpTo(all, 2) == ["Red", "Blue"];
    assert UniqueTagsUpTo(all, 3) == ["Red", "Blue"];
  }

  /** A tag that is a single word: not empty, no ';' and no space. */
  predicate Word(w: string)
  {
    w != "" && ';' !in w && ' ' !in w
  }

  /** The class key of a single word is itself a single class token. */
  lemma WordKey(w: string)
    requires Word(w)
    ensures Sanitize(w) == LowerCase(w) && ClassTokens(Sanitize(w)) == [Sanitize(w)]
  {
    LowerCaseKeepsSpaces(w);
    ClassTokensOfWord(Sanitize(w));
  }

  /** Three records with one Tags column, tagged "a;b", "b;c" and "a" (the
      shape of "Red;Blue", "Blue;Green", "Red"). */
  function Shop(a: string, b: string, c: string): (rs: RecordSet)
    ensures WellFormed(rs)
  {
    RecordSet(false, [Column("tags", "Tags")], ["r1", "r2", "r3"],
      map["r1" := map["tags" := a + ";" + b], "r2" := map["tags" := b + ";" + c], "r3" := map["tags" := a]])
  }

  lemma SplitPair(a: string, b: string)
    requires ';' !in a && ';' !in b
    ensures Split(a + ";" + b, ';') == [a, b]
  {
    assert a + ";" + b == a + [';'] + b;
    SplitAround(a, b, ';');
    SplitNoSep(a, ';');
    SplitNoSep(b, ';');
  }

  lemma {:induction false} OneTagsColumn(rec: Record, v: string)
    requires rec == map["tags" := v]
    ensures RecordTags([Column("tags", "Tags")], rec) == Split(v, ';')
  {
    var cols := [Column("tags", "Tags")];
    assert cols[..0] == [];
    assert GetValue(rec, "tags") == Some(v);
  }

  /** `allTags` of the three records, in order, duplicates kept. */
  lemma {:induction false} ShopTags(a: string, b: string, c: string)
    requires Word(a) && Word(b) && Word(c)
    ensures AllTags(Shop(a, b, c)) == [a, b, b, c, a]
  {
    var rs := Shop(a, b, c);
    var cols := rs.columns;
    assert RecordTags(cols, rs.records["r1"]) == [a, b] by {
      SplitPair(a, b);
      OneTagsColumn(rs.records["r1"], a + ";" + b);
    }
    assert RecordTags(cols, rs.records["r2"]) == [b, c] by {
      SplitPair(b, c);
      OneTagsColumn(rs.records["r2"], b + ";" + c);
    }
    assert RecordTags(cols, rs.records["r3"]) == [a] by {
      SplitNoSep(a, ';');
      OneTagsColumn(rs.records["r3"], a);
    }
    assert AllTagsUpTo(rs, 1) == [a, b];
    assert AllTagsUpTo(rs, 2) == [a, b, b, c];
  }

  /** One step of `UniqueTagsUpTo` that keeps the next element. */
  lemma UniqueTagsKeep(all: seq<string>, n: nat, prev: seq<string>)
    requires n < |all| && UniqueTagsUpTo(all, n) == prev
    requires IndexOf(all, all[n]) == n && all[n] != ""
    ensures UniqueTagsUpTo(all, n + 1) == prev + [all[n]]
  {
  }

  /** One step of `UniqueTagsUpTo` that drops a repeated element. */
  lemma UniqueTagsSkip(all: seq<string>, n: nat, prev: seq<string>)
    requires n < |all| && UniqueTagsUpTo(all, n) == prev
    requires IndexOf(all, all[n]) != n
    ensures UniqueTagsUpTo(all, n + 1) == prev
  {
  }

  /** The palette: each tag once, in first-seen order. */
  lemma {:induction false} ShopPalette(a: string, b: string, c: string)
    requires Word(a) && Word(b) && Word(c) && a != b && b != c && a != c
    ensures UniqueTags(AllTags(Shop(a, b, c))) == [a, b, c]
  {
    ShopTags(a, b, c);
    var all := [a, b, b, c, a];
    IndexOfAt(all, a, 0);
    IndexOfAt(all, b, 1);
    IndexOfAt(all, c, 3);
    ShopUnique(all, a, b, c);
  }

  lemma {:induction false} ShopUnique(all: seq<string>, a: string, b: string, c: string)
    requires |all| == 5 && all[0] == a && all[1] == b && all[2] == b && all[3] == c && all[4] == a
    requires IndexOf(all, a) == 0 && IndexOf(all, b) == 1 && IndexOf(all, c) == 3
    requires a != "" && b != "" && c != ""
    ensures UniqueTags(all) == [a, b, c]
  {
    assert UniqueTagsUpTo(all, 1) == [a] by { UniqueTagsKeep(all, 0, []); }
    assert UniqueTagsUpTo(all, 2) == [a, b] by { UniqueTagsKeep(all, 1, [a]); }
    assert UniqueTagsUpTo(all, 3) == [a, b] by { UniqueTagsSkip(all, 2, [a, b]); }
    assert UniqueTagsUpTo(all, 4) == [a, b, c] by { UniqueTagsKeep(all, 3, [a, b]); }
    UniqueTagsSkip(all, 4, [a, b, c]);
  }

  /** The row of the record tagged only `a`. */
  lemma {:induction false} LastRow(a: string, b: string, c: string)
    requires Word(a) && Word(b) && Word(c)
    ensures Table(Shop(a, b, c))[3] == Div("row", [TagBox([TagSpan(a)])], false)
  {
    var rs := Shop(a, b, c);
    SplitNoSep(a, ';');
    TableShape(rs);
    var row := Table(rs)[3];
    assert row == RecordRow(rs.columns, map["tags" := a]);
    assert GetValue(map["tags" := a], "tags") == Some(a);
    assert row.children[0] == TagBox(TagSpans([a]));
    assert TagSpans([a]) == [TagSpan(a)];
  }

  /** A one-token query finds an element exactly when it carries that token. */
  lemma OneTokenQuery(className: string, key: string)
    requires ClassTokens(key) == [key]
    ensures MatchesClassNames(className, key) <==> key in ClassTokens(className)
  {
  }

  /** The class tokens of a row's tag span for a single word. */
  lemma TagSpanTokens(a: string)
    requires Word(a)
    ensures ClassTokens(TagSpan(a).className) == ["tag", Sanitize(a)]
  {
    WordKey(a);
    ClassTokensOfWord("tag");
    ClassTokensAppend("tag", Sanitize(a));
    assert "tag " + Sanitize(a) == "tag" + " " + Sanitize(a);
  }

  /** A query for another single word's key finds nothing in that row, unless
      the key is "tag" or "tags", the classes the row's own elements carry. */
  lemma {:induction false} LastRowLacks(a: string, t: string)
    requires Word(a) && Word(t)
    requires Sanitize(t) != Sanitize(a) && Sanitize(t) != "tag" && Sanitize(t) != "tags"
    ensures !RowHas(Div("row", [TagBox([TagSpan(a)])], false), Sanitize(t))
  {
    var key := Sanitize(t);
    WordKey(t);
    TagSpanTokens(a);
    ClassTokensOfWord("tags");
    OneTokenQuery(TagSpan(a).className, key);
    OneTokenQuery("tags", key);
    var box := TagBox([TagSpan(a)]);
    assert !ChildHas(box, key);
  }

  /** Selecting `b` shows the two rows tagged `b`. */
  lemma {:induction false} ShopShows(a: string, b: string, c: string, selected: seq<string>)
    requires Word(a) && Word(b) && Word(c) && b in selected
    ensures var f := Filtered(Table(Shop(a, b, c)), selected);
      |f| == 4 && !f[1].hidden && !f[2].hidden
  {
    var rs := Shop(a, b, c);
    SplitPair(a, b);
    SplitPair(b, c);
    assert GetValue(rs.records["r1"], "tags") == Some(a + ";" + b);
    assert GetValue(rs.records["r2"], "tags") == Some(b + ";" + c);
    assert b in [a, b] && b in [b, c];
    SelectedTagShowsItsRecords(rs, selected, b, 1, 0);
    SelectedTagShowsItsRecords(rs, selected, b, 2, 0);
  }

  /** Selecting `b`, or `b` and `c`, hides the row tagged only `a`. */
  lemma {:induction false} ShopHides(a: string, b: string, c: string, selected: seq<string>)
    requires Word(a) && Word(b) && Word(c)
    requires Sanitize(b) != Sanitize(a) && Sanitize(c) != Sanitize(a)
    requires forall t :: t in [b, c] ==> Sanitize(t) != "tag" && Sanitize(t) != "tags"
    requires selected == [b] || selected == [b, c]
    ensures var f := Filtered(Table(Shop(a, b, c)), selected);
      |f| == 4 && f[3].hidden
  {
    LastRow(a, b, c);
    var row := Div("row", [TagBox([TagSpan(a)])], false);
    assert b in [b, c] && c in [b, c];
    LastRowLacks(a, b);
    LastRowLacks(a, c);
    assert !Selects(row, selected);
  }

  /** Selecting `b` shows the two rows tagged `b` and hides the row tagged
      only `a`; selecting `b` and `c` (OR) does the same. */
  lemma ShopFilter(a: string, b: string, c: string, selected: seq<string>)
    requires Word(a) && Word(b) && Word(c)
    requires Sanitize(b) != Sanitize(a) && Sanitize(c) != Sanitize(a)
    requires forall t :: t in [b, c] ==> Sanitize(t) != "tag" && Sanitize(t) != "tags"
    requires selected == [b] || selected == [b, c]
    ensures var f := Filtered(Table(Shop(a, b, c)), selected);
      |f| == 4 && !f[1].hidden && !f[2].hidden && f[3].hidden
  {
    ShopShows(a, b, c, selected);
    ShopHides(a, b, c, selected);
  }

  /** Clicking the chip of `b` twice: first it is selected and hides the row
      tagged only `a`, then it is deselected, the selection is empty again and
      every row is shown. */
  method ClickTwice(a: string, b: string, c: string)
    requires Word(a) && Word(b) && Word(c) && a != b && b != c && a != c
    requires Sanitize(b) != Sanitize(a) && Sanitize(c) != Sanitize(a)
    requires forall t :: t in [b, c] ==> Sanitize(t) != "tag" && Sanitize(t) != "tags"
  {
    var w := new FilteredList();
    ShopPalette(a, b, c);
    w.UpdateView(Shop(a, b, c));
    assert w.palette[1] == Chip(b, Sanitize(b), true);
    w.Click(1);
    assert w.selectedTags == [b];
    ShopFilter(a, b, c, [b]);
    assert w.container[3].hidden;
    w.Click(1);
    assert w.selectedTags == [] by {
      RemoveOneRemoves([b], b);
    }
    TableShape(Shop(a, b, c));
    assert !w.container[3].hidden;
  }

  lemma DeselectRemovesFirstCopy(b: string)
    ensures RemoveOne([b, b], b) == [b]
  {
    IndexOfAt([b, b], b, 0);
    RemoveOneRemoves([b, b], b);
  }

  /** Selecting `b` and then receiving the same records again: the new
      palette shows every chip unselected, yet `_selectedTags` still holds
      `b`. */
  method SelectThenUpdate(a: string, b: string, c: string) returns (w: FilteredList)
    requires Word(a) && Word(b) && Word(c) && a != b && b != c && a != c
    ensures fresh(w) && w.Consistent()
    ensures w.selectedTags == [b] && w.palette == Palette([a, b, c])
    ensures w.container == Table(Shop(a, b, c))
  {
    w := new FilteredList();
    var rs := Shop(a, b, c);
    ShopPalette(a, b, c);
    assert Palette([a, b, c])[1] == Chip(b, Sanitize(b), true);
    w.UpdateView(rs);
    w.Click(1);
    assert w.selectedTags == [b];
    w.UpdateView(rs);
  }

  /** After that update, clicking `b` twice adds a second copy and removes
      the first: the earlier selection keeps hiding the row tagged only `a`
      although no chip shows as selected. */
  method ReselectAfterUpdate(w: FilteredList, a: string, b: string, c: string)
    requires Word(a) && Word(b) && Word(c) && a != b && b != c && a != c
    requires Sanitize(b) != Sanitize(a) && Sanitize(c) != Sanitize(a)
    requires forall t :: t in [b, c] ==> Sanitize(t) != "tag" && Sanitize(t) != "tags"
    requires w.Consistent()
    requires w.selectedTags == [b] && w.palette == Palette([a, b, c])
    requires w.container == Table(Shop(a, b, c))
    modifies w
    ensures w.selectedTags == [b] && w.palette == Palette([a, b, c])
    ensures |w.container| == 4 && w.container[3].hidden
  {
    var initial := Palette([a, b, c]);
    assert initial[1] == Chip(b, Sanitize(b), true);
    w.Click(1);
    assert w.selectedTags == [b, b];
    DeselectRemovesFirstCopy(b);
    w.Click(1);
    assert w.selectedTags == [b];
    assert w.palette == initial;
    FilterForgetsEarlierPasses(Table(Shop(a, b, c)), [b, b], [b]);
    ShopFilter(a, b, c, [b]);
  }
}
