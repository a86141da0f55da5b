/** The selection list `_selectedTags` and the two array operations the chip
    click handler applies to it: `push(text)` when a chip becomes selected and
    `splice(indexOf(text), 1)` when it becomes unselected. */
module Selection {
  import opened Text

  /** Where `splice(start, ...)` starts on an array of length `len`: a negative
      start counts from the end (and stops at 0), a start past the end is the
      end. */
  function ActualStart(len: nat, start: int): (a: nat)
    ensures a <= len
    ensures 0 <= start <= len ==> a == start
    ensures start < 0 && len + start >= 0 ==> a == len + start
  {
    if start < 0 then (if len + start < 0 then 0 else len + start)
    else if start > len then len
    else start
  }

  /** The array left by `s.splice(start, 1)`: one element removed at the
      actual start, or none when that start is the end of the array. */
  function SpliceOne<T>(s: seq<T>, start: int): (r: seq<T>)
    ensures |r| == if s != [] && start < |s| then |s| - 1 else |s|
    ensures 0 <= start < |s| ==> forall i :: 0 <= i < |r| ==> r[i] == if i < start then s[i] else s[i + 1]
    ensures start == -1 && s != [] ==> r == s[..|s| - 1]
  {
    var a := ActualStart(|s|, start);
    if a < |s| then s[..a] + s[a + 1..] else s
  }

  /** The deselect branch: `s.splice(s.indexOf(x), 1)`. */
  function RemoveOne<T(==)>(s: seq<T>, x: T): (r: seq<T>)
    ensures |r| == if s == [] then 0 else |s| - 1
  {
    SpliceOne(s, IndexOf(s, x))
  }

  /** What `splice(indexOf(x), 1)` does: it removes the first `x` when there is
      one; when there is none, `indexOf` gives -1 and the LAST element goes
      instead (nothing, on an empty list). */
  lemma {:induction false} RemoveOneRemoves<T>(s: seq<T>, x: T)
    ensures x in s ==> var k := IndexOf(s, x);
      RemoveOne(s, x) == s[..k] + s[k + 1..] && multiset(RemoveOne(s, x)) == multiset(s) - multiset{x}
    ensures x !in s && s != [] ==> RemoveOne(s, x) == s[..|s| - 1]
    ensures s == [] ==> RemoveOne(s, x) == []
  {
    if x in s {
      var k := IndexOf(s, x);
      var r := RemoveOne(s, x);
      assert r == s[..k] + s[k + 1..];
      assert s == s[..k] + [x] + s[k + 1..];
      assert multiset(s) == multiset(s[..k]) + multiset{x} + multiset(s[k + 1..]);
    }
  }

  /** Selecting a chip and deselecting it again leaves the same multiset of
      selected tags; the very same list when the tag was not selected before. */
  lemma {:induction false} SelectThenDeselect<T>(s: seq<T>, x: T)
    ensures multiset(RemoveOne(s + [x], x)) == multiset(s)
    ensures x !in s ==> RemoveOne(s + [x], x) == s
  {
    RemoveOneRemoves(s + [x], x);
    if x !in s {
      assert IndexOf(s + [x], x) == |s| by {
        assert (s + [x])[..|s|] == s;
      }
      assert (s + [x])[..|s|] == s;
    }
  }

  /** Selecting then deselecting gives back the very same list exactly when
      every element from the tag's first occurrence onward is that tag: the
      splice removes the first copy, and the pushed copy takes the last place.
      A tag not selected before satisfies this vacuously; `["b"]` does too, but
      `["b", "a"]` becomes `["a", "b"]`. */
  lemma {:induction false} SelectThenDeselectRestoresIff<T>(s: seq<T>, x: T)
    ensures RemoveOne(s + [x], x) == s <==>
      forall i :: IndexOf(s + [x], x) <= i < |s| ==> s[i] == x
  {
    if forall i :: IndexOf(s + [x], x) <= i < |s| ==> s[i] == x {
      RestoredWhenTailIsTag(s, x);
    }
    if RemoveOne(s + [x], x) == s {
      TailIsTagWhenRestored(s, x);
    }
  }

  lemma {:induction false} RestoredWhenTailIsTag<T>(s: seq<T>, x: T)
    requires forall i :: IndexOf(s + [x], x) <= i < |s| ==> s[i] == x
    ensures RemoveOne(s + [x], x) == s
  {
    var t := s + [x];
    var k := IndexOf(t, x);
    var r := SpliceOne(t, k);
    forall i | 0 <= i < |s| ensures r[i] == s[i] {
      if i >= k && i + 1 < |s| {
        assert s[i + 1] == x;
      }
    }
  }

  lemma {:induction false} TailIsTagWhenRestored<T>(s: seq<T>, x: T)
    requires RemoveOne(s + [x], x) == s
    ensures forall i :: IndexOf(s + [x], x) <= i < |s| ==> s[i] == x
  {
    var t := s + [x];
    var k := IndexOf(t, x);
    var r := SpliceOne(t, k);
    var i := k;
    while i < |s|
      invariant k <= i <= |s|
      invariant forall j :: k <= j < i ==> s[j] == x
    {
      if i > k {
        assert r[i - 1] == t[i];
      }
      i := i + 1;
    }
  }

  /** The update of `_selectedTags` after a click, decided by the chip's state
      AFTER its `unselected` class was toggled. */
  function AfterClick(s: seq<string>, text: string, nowUnselected: bool): (r: seq<string>)
    ensures |r| == if !nowUnselected then |s| + 1 else if s == [] then 0 else |s| - 1
    ensures !nowUnselected ==> multiset(r) == multiset(s) + multiset{text}
  {
    if nowUnselected then RemoveOne(s, text) else s + [text]
  }
}
