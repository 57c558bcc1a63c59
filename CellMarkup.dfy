/** The content of a table cell after a search: plain text runs and
    highlighted runs, and the global, case-insensitive replace that wraps each
    occurrence of the search term in a highlight marker keeping its original
    text. */
module CellMarkup {
  import opened Text

  /** A child of a cell: a text node, or a highlight `<span>` around text. */
  datatype Segment = Plain(text: string) | Marked(text: string)

  type CellContent = seq<Segment>

  /** `cell.textContent`: the cell's text with the markers stripped. */
  function TextOf(c: CellContent): string
  {
    if c == [] then "" else c[0].text + TextOf(c[1..])
  }

  /** `cell.innerHTML = text`: a single text node, none for the empty text. */
  function PlainCell(t: string): (c: CellContent)
    ensures TextOf(c) == t
  {
    if t == "" then [] else [Plain(t)]
  }

  predicate HasMark(c: CellContent)
  {
    exists k :: 0 <= k < |c| && c[k].Marked?
  }

  /** The shape the browser's parser gives a cell: no empty text node and no
      two adjacent text nodes. */
  predicate Canonical(c: CellContent)
  {
    && (forall k :: 0 <= k < |c| && c[k].Plain? ==> c[k].text != "")
    && (forall k :: 0 < k < |c| && c[k].Plain? ==> !c[k - 1].Plain?)
  }

  /** Puts one more character in front, merging it into a leading text run
      (PrependCharOnlyFirstRun and PrependCharCanonical state the merge). */
  function PrependChar(ch: char, c: CellContent): (r: CellContent)
    ensures TextOf(r) == [ch] + TextOf(c)
    ensures HasMark(r) <==> HasMark(c)
    ensures r != [] && r[0].Plain?
  {
    if c != [] && c[0].Plain? then
      assert TextOf(c) == c[0].text + TextOf(c[1..]);
      var r := [Plain([ch] + c[0].text)] + c[1..];
      assert r[1..] == c[1..];
      assert forall k :: 0 < k < |r| ==> r[k] == c[k];
      r
    else
      var r := [Plain([ch])] + c;
      assert r[1..] == c;
      assert forall k :: 0 < k < |r| ==> r[k] == c[k - 1];
      r
  }

  /** Only the first run changes or is added: the runs after it are the
      cell's own, so no marker is added. */
  lemma PrependCharOnlyFirstRun(ch: char, c: CellContent)
    ensures var r := PrependChar(ch, c); |c| <= |r| <= |c| + 1 && r[1..] == c[|c| + 1 - |r|..]
  {
    var r := PrependChar(ch, c);
    if c != [] && c[0].Plain? {
      assert r[1..] == c[1..];
    } else {
      assert r[1..] == c;
    }
  }

  /** The new character joins a leading text run rather than sitting beside
      it, so a cell in the parser's shape keeps that shape. */
  lemma PrependCharCanonical(ch: char, c: CellContent)
    requires Canonical(c)
    ensures Canonical(PrependChar(ch, c))
  {
    var r := PrependChar(ch, c);
    PrependCharOnlyFirstRun(ch, c);
    var d := |r| - |c|;
    forall k | 0 < k < |r| && r[k].Plain?
      ensures r[k].text != "" && !r[k - 1].Plain?
    {
      assert r[k] == r[1..][k - 1] == c[k - d];
      if k > 1 {
        assert r[k - 1] == r[1..][k - 2] == c[k - 1 - d];
      }
    }
  }

  /** The term occurs, case-insensitively, at the start of `s`. */
  predicate MatchesAtStart(s: string, term: string)
  {
    |term| <= |s| && Lower(s[..|term|]) == term
  }

  /** `s.replace(new RegExp(term, 'gi'), '<span style="…">$&</span>')` for a lower-case
      term without pattern characters: scanning left to right, each
      occurrence is marked (keeping its own letter case) and the scan resumes
      after it. */
  function Highlight(s: string, term: string): CellContent
    requires term != ""
    decreases |s|
  {
    if |s| < |term| then PlainCell(s)
    else if MatchesAtStart(s, term) then [Marked(s[..|term|])] + Highlight(s[|term|..], term)
    else PrependChar(s[0], Highlight(s[1..], term))
  }

  /** Stripping the markers gives back exactly the original text. */
  lemma {:induction false} HighlightText(s: string, term: string)
    requires term != ""
    ensures TextOf(Highlight(s, term)) == s
    decreases |s|
  {
    if |s| < |term| {
    } else if MatchesAtStart(s, term) {
      var rest := Highlight(s[|term|..], term);
      HighlightText(s[|term|..], term);
      assert ([Marked(s[..|term|])] + rest)[1..] == rest;
      assert s == s[..|term|] + s[|term|..];
    } else {
      HighlightText(s[1..], term);
      assert s == [s[0]] + s[1..];
    }
  }

  /** Every marked run of the cell lowercases to the term. */
  predicate MarksAreTerm(c: CellContent, term: string)
  {
    forall k :: 0 <= k < |c| && c[k].Marked? ==> Lower(c[k].text) == term
  }

  /** Every marked run lowercases to the term. */
  lemma {:induction false} HighlightMarksTerm(s: string, term: string)
    requires term != ""
    ensures MarksAreTerm(Highlight(s, term), term)
    decreases |s|
  {
    var r := Highlight(s, term);
    if |s| < |term| {
    } else if MatchesAtStart(s, term) {
      var rest := Highlight(s[|term|..], term);
      HighlightMarksTerm(s[|term|..], term);
      assert forall k :: 0 < k < |r| ==> r[k] == rest[k - 1];
    } else {
      var rest := Highlight(s[1..], term);
      HighlightMarksTerm(s[1..], term);
      if rest != [] && rest[0].Plain? {
        assert forall k :: 0 < k < |r| ==> r[k] == rest[k];
      } else {
        assert forall k :: 0 < k < |r| ==> r[k] == rest[k - 1];
      }
    }
  }

  /** No text run left plain contains the term. */
  predicate PlainRunsFree(c: CellContent, term: string)
  {
    forall k :: 0 <= k < |c| && c[k].Plain? ==> !Contains(Lower(c[k].text), term)
  }

  /** Putting a character in front of a cell whose runs are free of the term
      keeps them free, provided the term does not start at that character. */
  lemma PrependCharKeepsRunsFree(ch: char, rest: CellContent, term: string)
    requires term != ""
    requires PlainRunsFree(rest, term)
    requires !(|term| <= 1 + |TextOf(rest)| && Lower(([ch] + TextOf(rest))[..|term|]) == term)
    ensures PlainRunsFree(PrependChar(ch, rest), term)
  {
    var r := PrependChar(ch, rest);
    PrependCharFirstRunFree(ch, rest, term);
    if rest != [] && rest[0].Plain? {
      assert forall k :: 0 < k < |r| ==> r[k] == rest[k];
    } else {
      assert forall k :: 0 < k < |r| ==> r[k] == rest[k - 1];
    }
  }

  /** The leading run PrependChar builds is free of the term under the same
      conditions. */
  lemma PrependCharFirstRunFree(ch: char, rest: CellContent, term: string)
    requires term != ""
    requires PlainRunsFree(rest, term)
    requires !(|term| <= 1 + |TextOf(rest)| && Lower(([ch] + TextOf(rest))[..|term|]) == term)
    ensures !Contains(Lower(PrependChar(ch, rest)[0].text), term)
  {
    var x := PrependChar(ch, rest)[0].text;
    if rest != [] && rest[0].Plain? {
      var p := rest[0].text;
      assert !Contains(Lower(p), term);
      assert TextOf(rest) == p + TextOf(rest[1..]);
      assert x == [ch] + p;
      assert x == ([ch] + TextOf(rest))[..|x|];
      assert Lower(x)[1..] == Lower(p);
    } else {
      assert x == [ch] == ([ch] + TextOf(rest))[..1];
      assert Lower(x)[1..] == [];
    }
    if |term| <= |x| {
      assert Lower(x)[..|term|] == Lower(([ch] + TextOf(rest))[..|term|]);
    }
    assert !OccursAt(Lower(x), term, 0);
    ContainsTail(Lower(x), term);
  }

  /** The scan leaves no occurrence inside a plain run: every occurrence
      overlaps a marked run. */
  lemma {:induction false} HighlightPlainRunsFree(s: string, term: string)
    requires term != ""
    ensures PlainRunsFree(Highlight(s, term), term)
    decreases |s|
  {
    var r := Highlight(s, term);
    if |s| < |term| {
      if s != "" {
        assert r == [Plain(s)];
      }
    } else if MatchesAtStart(s, term) {
      var rest := Highlight(s[|term|..], term);
      HighlightPlainRunsFree(s[|term|..], term);
      assert forall k :: 0 < k < |r| ==> r[k] == rest[k - 1];
    } else {
      var rest := Highlight(s[1..], term);
      HighlightPlainRunsFree(s[1..], term);
      HighlightText(s[1..], term);
      assert [s[0]] + TextOf(rest) == s;
      PrependCharKeepsRunsFree(s[0], rest, term);
    }
  }

  /** Offset `p` of the cell's text lies inside a plain run. */
  predicate PlainAt(c: CellContent, p: nat)
    decreases |c|
  {
    c != [] && if p < |c[0].text| then c[0].Plain? else PlainAt(c[1..], p - |c[0].text|)
  }

  /** After PrependChar the new first offset is plain and every other offset
      is plain exactly when it was, one place further left, before. */
  lemma PrependCharPlainAt(ch: char, c: CellContent, p: nat)
    ensures PlainAt(PrependChar(ch, c), p) <==> p == 0 || PlainAt(c, p - 1)
  {
    var r := PrependChar(ch, c);
    if c != [] && c[0].Plain? {
      assert r[1..] == c[1..];
    } else {
      assert r[1..] == c;
    }
  }

  /** An occurrence at or after offset `k` is an occurrence in the suffix
      from `k`. */
  lemma OccursAtShift(text: string, term: string, k: nat, p: nat)
    requires k <= p && k <= |text|
    ensures OccursAt(text, term, p) <==> OccursAt(text[k..], term, p - k)
  {
    if p + |term| <= |text| {
      assert text[k..][p - k..p - k + |term|] == text[p..p + |term|];
    }
  }

  /** The scan takes occurrences leftmost first: no occurrence of the term
      in the lower-cased text starts at an offset the scan left plain. With
      HighlightText and HighlightMarksTerm this fixes which runs are marked. */
  lemma {:induction false} HighlightLeftmost(s: string, term: string, p: nat)
    requires term != ""
    ensures PlainAt(Highlight(s, term), p) ==> !OccursAt(Lower(s), term, p)
    decreases |s|
  {
    var r := Highlight(s, term);
    if |s| < |term| {
    } else if MatchesAtStart(s, term) {
      var rest := Highlight(s[|term|..], term);
      assert r == [Marked(s[..|term|])] + rest;
      assert PlainAt(r, p) <==> p >= |term| && PlainAt(rest, p - |term|) by {
        assert r[1..] == rest;
      }
      if p >= |term| && PlainAt(rest, p - |term|) {
        HighlightLeftmost(s[|term|..], term, p - |term|);
        LowerOccursAtShift(s, term, p);
      }
    } else {
      var rest := Highlight(s[1..], term);
      assert r == PrependChar(s[0], rest);
      PrependCharPlainAt(s[0], rest, p);
      if p == 0 {
        LowerSlice(s, 0, |term|);
      } else if PlainAt(rest, p - 1) {
        HighlightLeftmost(s[1..], term, p - 1);
        LowerOccursAtShift(s, term, p);
      }
    }
  }

  /** An occurrence in the lower-cased text past a prefix of length `k` is
      one in the lower-cased suffix. */
  lemma LowerOccursAtShift(s: string, term: string, p: nat)
    requires 1 <= p
    ensures forall k: nat | 1 <= k <= p && k <= |s| ::
      OccursAt(Lower(s), term, p) <==> OccursAt(Lower(s[k..]), term, p - k)
  {
    forall k: nat | 1 <= k <= p && k <= |s|
      ensures OccursAt(Lower(s), term, p) <==> OccursAt(Lower(s[k..]), term, p - k)
    {
      LowerSlice(s, k, |s|);
      OccursAtShift(Lower(s), term, k, p);
    }
  }

  /** The cell gets a marker exactly when `toLowerCase().includes(term)`
      holds, so the source's `includes` test and its replace agree. */
  lemma {:induction false} HighlightMarksIffContains(s: string, term: string)
    requires term != ""
    ensures HasMark(Highlight(s, term)) <==> Contains(Lower(s), term)
    decreases |s|
  {
    if |s| < |term| {
      assert !HasMark(PlainCell(s));
    } else if MatchesAtStart(s, term) {
      assert Highlight(s, term)[0].Marked?;
      LowerSlice(s, 0, |term|);
      assert OccursAt(Lower(s), term, 0);
    } else {
      HighlightMarksIffContains(s[1..], term);
      LowerSlice(s, 0, |term|);
      assert !OccursAt(Lower(s), term, 0);
      assert Lower(s)[1..] == Lower(s[1..]);
      ContainsTail(Lower(s), term);
    }
  }

  /** The highlighted cell has the shape the browser's parser gives it: no
      empty and no adjacent text runs. */
  lemma {:induction false} HighlightCanonical(s: string, term: string)
    requires term != ""
    ensures Canonical(Highlight(s, term))
    decreases |s|
  {
    var r := Highlight(s, term);
    if |s| < |term| {
    } else if MatchesAtStart(s, term) {
      var rest := Highlight(s[|term|..], term);
      HighlightCanonical(s[|term|..], term);
      assert forall k :: 0 < k < |r| ==> r[k] == rest[k - 1];
    } else {
      HighlightCanonical(s[1..], term);
      PrependCharCanonical(s[0], Highlight(s[1..], term));
    }
  }
}
