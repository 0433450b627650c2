/**
 * The source list of the content-sourcing dashboard (streamlit_ui.py:26-27):
 * the configured sources are shown joined by commas, and whatever the user
 * leaves in the box is split on commas, each piece trimmed, blanks dropped.
 */
module SourceList {
  import opened Wrappers
  import opened PyStr

  /** Line 27, `url.strip()` for every comma-separated piece, in order. */
  function StripAll(pieces: seq<string>): seq<string> {
    seq(|pieces|, i requires 0 <= i < |pieces| => Strip(pieces[i]))
  }

  /** Line 27's filter `if url.strip()`: the non-empty strings, in their order. */
  function NonEmpty(xs: seq<string>): (r: seq<string>)
    ensures forall s :: s in r <==> s in xs && |s| > 0
    ensures Subsequence(r, xs)
    ensures r == [] <==> forall i :: 0 <= i < |xs| ==> |xs[i]| == 0
    ensures forall s :: multiset(r)[s] == if |s| > 0 then multiset(xs)[s] else 0
  {
    if xs == [] then []
    else
      assert xs == [xs[0]] + xs[1..];
      if |xs[0]| == 0 then
        var r := NonEmpty(xs[1..]);
        assert forall i :: 0 < i < |xs| ==> xs[i] == xs[1..][i - 1];
        r
      else
        var r := [xs[0]] + NonEmpty(xs[1..]);
        assert r[1..] == NonEmpty(xs[1..]);
        r
  }

  /**
   * Line 27: the sources typed in the box. Every source is non-empty, trimmed
   * and free of commas; the sources are exactly the non-empty trimmed pieces,
   * in the order of the pieces, each as often as among the pieces, and
   * there is at most one more than there are commas.
   */
  function ParseSources(input: string): (r: seq<string>)
    ensures forall s :: s in r ==> |s| > 0 && NoSpaceEnds(s) && ',' !in s
    ensures forall s :: s in r <==> s in StripAll(Split(input, ',')) && |s| > 0
    ensures Subsequence(r, StripAll(Split(input, ',')))
    ensures forall s :: multiset(r)[s] == if |s| > 0 then multiset(StripAll(Split(input, ',')))[s] else 0
    ensures |r| <= CountChar(input, ',') + 1
  {
    var pieces := Split(input, ',');
    var stripped := StripAll(pieces);
    var r := NonEmpty(stripped);
    forall s | s in r
      ensures NoSpaceEnds(s) && ',' !in s
    {
      var i :| 0 <= i < |stripped| && stripped[i] == s;
      StripChars(pieces[i]);
      assert pieces[i] in pieces;
    }
    SubsequenceLength(r, stripped);
    r
  }

  lemma {:induction false} SubsequenceLength(a: seq<string>, b: seq<string>)
    requires Subsequence(a, b)
    ensures |a| <= |b|
    decreases |b|
  {
    if a != [] {
      if a[0] == b[0] && Subsequence(a[1..], b[1..]) {
        SubsequenceLength(a[1..], b[1..]);
      } else {
        SubsequenceLength(a, b[1..]);
      }
    }
  }

  /** Line 27: an input made only of whitespace and commas gives no source. */
  lemma BlankInputHasNoSources(input: string)
    requires forall i :: 0 <= i < |input| ==> IsSpace(input[i]) || input[i] == ','
    ensures ParseSources(input) == []
  {
    var pieces := Split(input, ',');
    var stripped := StripAll(pieces);
    forall i | 0 <= i < |stripped|
      ensures |stripped[i]| == 0
    {
      var p := pieces[i];
      assert p in pieces;
      forall j | 0 <= j < |p|
        ensures IsSpace(p[j])
      {
        assert p[j] in p;
        assert p[j] in input && p[j] != ',';
      }
      StripBlank(p);
    }
  }

  /** Non-empty, trimmed pieces come through line 27 as they are. */
  lemma {:induction false} KeepTrimmed(pieces: seq<string>)
    requires forall s :: s in pieces ==> |s| > 0 && NoSpaceEnds(s)
    ensures NonEmpty(StripAll(pieces)) == pieces
    decreases |pieces|
  {
    var stripped := StripAll(pieces);
    forall i | 0 <= i < |pieces|
      ensures stripped[i] == pieces[i]
    {
      assert pieces[i] in pieces;
      StripTrimmed(pieces[i]);
    }
    assert stripped == pieces;
    NonEmptyKeepsAll(pieces);
  }

  lemma {:induction false} NonEmptyKeepsAll(xs: seq<string>)
    requires forall s :: s in xs ==> |s| > 0
    ensures NonEmpty(xs) == xs
    decreases |xs|
  {
    if xs != [] {
      assert xs[0] in xs;
      assert forall s :: s in xs[1..] ==> s in xs;
      NonEmptyKeepsAll(xs[1..]);
      Uncons(xs);
    }
  }

  /**
   * Lines 26-27: sources that are non-empty, trimmed and free of commas
   * survive being shown joined by "," and parsed back.
   */
  lemma ParseJoinedSources(sources: seq<string>)
    requires forall s :: s in sources ==> |s| > 0 && NoSpaceEnds(s) && ',' !in s
    ensures ParseSources(Join(sources, ",")) == sources
  {
    if sources == [] {
      assert Split("", ',') == [""];
      StripTrimmed("");
      assert StripAll([""]) == [""];
    } else {
      SplitJoin(sources, ',');
      KeepTrimmed(sources);
    }
  }
}
