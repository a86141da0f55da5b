/** CSS class names: the widget's name sanitiser, which turns a column display
    name or a tag into a class identifier, and the class-token matching that
    `getElementsByClassName` performs. */
module Css {
  import opened Text

  /** `s.replace(from, to)` with a one-character pattern: JavaScript replaces
      only the first occurrence. */
  function ReplaceFirst(s: string, from: char, to: char): (r: string)
    ensures |r| == |s|
  {
    var k := IndexOf(s, from);
    if k < 0 then s else s[k := to]
  }

  /** `sanitizeNameToCss`, also written out inline for chips and selected
      tags: `name.toLowerCase().replace(' ', '-')`. The result is the lowercased
      name in which the first space, and no other, has become a hyphen. */
  function Sanitize(name: string): (r: string)
    ensures |r| == |name|
    ensures forall i :: 0 <= i < |name| && i != IndexOf(name, ' ') ==> r[i] == ToLower(name[i])
    ensures ' ' in name ==> r[IndexOf(name, ' ')] == '-'
  {
    LowerCaseKeepsSpaces(name);
    ReplaceFirst(LowerCase(name), ' ', '-')
  }

  /** Lowercasing neither creates nor moves a space. */
  lemma LowerCaseKeepsSpaces(s: string)
    ensures IndexOf(LowerCase(s), ' ') == IndexOf(s, ' ')
    ensures Count(LowerCase(s), ' ') == Count(s, ' ')
  {
    if s != [] {
      assert LowerCase(s)[1..] == LowerCase(s[1..]);
      LowerCaseKeepsSpaces(s[1..]);
    }
  }

  /** Only the first space is replaced: every later space survives. */
  lemma SanitizeSpaces(name: string)
    ensures Count(Sanitize(name), ' ') == if ' ' in name then Count(name, ' ') - 1 else 0
  {
    LowerCaseKeepsSpaces(name);
    var low := LowerCase(name);
    if ' ' in name {
      CountUpdate(low, IndexOf(low, ' '), ' ', '-');
    }
  }

  /** A sanitised name is already lower case, so sanitising it again only
      replaces its next space. */
  lemma {:induction false} SanitizeIsLowerCase(name: string)
    ensures LowerCase(Sanitize(name)) == Sanitize(name)
  {
    var r := Sanitize(name);
    forall i | 0 <= i < |r| ensures ToLower(r[i]) == r[i] {
      if i != IndexOf(name, ' ') {
        assert r[i] == ToLower(name[i]);
      }
    }
  }

  /** Sanitising is idempotent exactly for names with at most one space:
      "a b c" becomes "a-b c" and then "a-b-c". */
  lemma {:induction false} SanitizeIdempotentIff(name: string)
    ensures Sanitize(Sanitize(name)) == Sanitize(name) <==> Count(name, ' ') <= 1
  {
    var r := Sanitize(name);
    SanitizeIsLowerCase(name);
    SanitizeSpaces(name);
    if ' ' in r {
      var k := IndexOf(r, ' ');
      assert Sanitize(r)[k] == '-' != r[k];
    }
  }

  /** Some character of a non-empty name's sanitised form is not a space:
      either the name has no space at all, or its first space became '-'. */
  lemma {:induction false} SanitizeHasNonSpace(name: string) returns (i: nat)
    requires name != ""
    ensures i < |Sanitize(name)| && Sanitize(name)[i] != ' '
  {
    if ' ' in name {
      i := IndexOf(name, ' ');
    } else {
      i := 0;
      assert name[0] != ' ';
    }
  }

  /** The pieces of `parts` that are not empty, in order. */
  function NonEmpty(parts: seq<string>): (r: seq<string>)
    ensures |r| <= |parts|
    ensures forall x :: x in r <==> x in parts && x != ""
  {
    if parts == [] then []
    else (if parts[0] == "" then [] else [parts[0]]) + NonEmpty(parts[1..])
  }

  lemma {:induction false} NonEmptyAppend(a: seq<string>, b: seq<string>)
    ensures NonEmpty(a + b) == NonEmpty(a) + NonEmpty(b)
  {
    if a == [] {
      assert a + b == b;
    } else {
      assert (a + b)[1..] == a[1..] + b;
      NonEmptyAppend(a[1..], b);
    }
  }

  /** The class tokens of a `className` attribute: its space-separated,
      non-empty words. */
  function ClassTokens(className: string): (r: seq<string>)
    ensures forall t :: t in r ==> t != "" && ' ' !in t
  {
    NonEmpty(Split(className, ' '))
  }

  /** The tokens of two class lists joined by a space are those of both. */
  lemma ClassTokensAppend(a: string, b: string)
    ensures ClassTokens(a + " " + b) == ClassTokens(a) + ClassTokens(b)
  {
    assert a + " " + b == a + [' '] + b;
    SplitAround(a, b, ' ');
    NonEmptyAppend(Split(a, ' '), Split(b, ' '));
  }

  /** `getElementsByClassName(query)` selects an element when the query has
      at least one class token and the element carries every one of them. */
  predicate MatchesClassNames(className: string, query: string)
  {
    var q := ClassTokens(query);
    |q| > 0 && forall t :: t in q ==> t in ClassTokens(className)
  }

  /** An element whose class list ends with a non-empty name's sanitised
      form is found by a query for that sanitised form. */
  lemma {:induction false} SanitizedClassIsFound(prefix: string, name: string)
    requires name != ""
    ensures MatchesClassNames(prefix + " " + Sanitize(name), Sanitize(name))
  {
    var key := Sanitize(name);
    ClassTokensAppend(prefix, key);
    var i := SanitizeHasNonSpace(name);
    SplitHasNonEmptyPiece(key, ' ', i);
    var k :| 0 <= k < |Split(key, ' ')| && Split(key, ' ')[k] != "";
    assert Split(key, ' ')[k] in ClassTokens(key);
  }

  /** A single word is its own only class token. */
  lemma ClassTokensOfWord(w: string)
    requires w != "" && ' ' !in w
    ensures ClassTokens(w) == [w]
  {
    SplitNoSep(w, ' ');
    assert [w][1..] == [];
  }
}
