/** `Claim.split_into_features`: the claim text is cut after every match of
    the delimiter pattern `(;\s*(and)?)|(,.?(and)?\n)|(:\s*)|(\.\s*$)`,
    found by `re.finditer`, and each piece becomes a feature record. */
module Features {
  import opened Text

  /** One match reported by `finditer`: the span `start..end`. */
  datatype Match = Match(start: nat, end: nat)

  /** A feature record `{startindex, endindex, text}`. */
  datatype Feature = Feature(startIndex: nat, endIndex: nat, text: string)

  /** The comma alternative `,.?(and)?\n` at a comma at `i`. Backtracking
      tries, in this order: a character and "and", a character alone,
      "and" alone, and nothing before the line break; `.` is any character
      but a line break. */
  function CommaEnd(s: string, i: nat): (e: Option<nat>)
    requires i < |s| && s[i] == ','
    ensures e.Some? ==> i + 2 <= e.value <= i + 6 && e.value <= |s| && s[e.value - 1] == '\n'
  {
    if i + 5 < |s| && s[i + 1] != '\n' && OccursAt(s, "and", i + 2) && s[i + 5] == '\n' then Some(i + 6)
    else if i + 2 < |s| && s[i + 1] != '\n' && s[i + 2] == '\n' then Some(i + 3)
    else if i + 4 < |s| && OccursAt(s, "and", i + 1) && s[i + 4] == '\n' then Some(i + 5)
    else if i + 1 < |s| && s[i + 1] == '\n' then Some(i + 2)
    else None
  }

  /** End of the delimiter match that starts at `i`, if the pattern matches
      there. The character at `i` picks the alternative. After `\.` the
      greedy `\s*` must reach `$`; giving whitespace back cannot help, since
      `$` also holds only before a line break that ends the string. */
  function DelimiterAt(s: string, i: nat): (e: Option<nat>)
    ensures e.Some? ==> i < e.value <= |s|
  {
    if i >= |s| then None
    else if s[i] == ';' then
      var w := RunEnd(s, i + 1, IsSpace);
      Some(if OccursAt(s, "and", w) then w + 3 else w)
    else if s[i] == ',' then CommaEnd(s, i)
    else if s[i] == ':' then Some(RunEnd(s, i + 1, IsSpace))
    else if s[i] == '.' && RunEnd(s, i + 1, IsSpace) == |s| then Some(|s|)
    else None
  }

  /** `re.finditer` from position `pos`: every match it reports, in order.
      After a match the search resumes where it ended; no alternative can
      match the empty string, so the search never has to step over one. */
  function FindIter(s: string, pos: nat): (ms: seq<Match>)
    ensures forall k :: 0 <= k < |ms| ==> pos <= ms[k].start < ms[k].end <= |s|
    ensures forall j, k :: 0 <= j < k < |ms| ==> ms[j].end <= ms[k].start
    decreases |s| - pos
  {
    if pos >= |s| then []
    else
      match DelimiterAt(s, pos)
      case Some(e) => [Match(pos, e)] + FindIter(s, e)
      case None => FindIter(s, pos + 1)
  }

  /** Every span `finditer` reports is a match of the delimiter pattern. */
  lemma {:induction false} FindIterSound(s: string, pos: nat)
    ensures forall k :: 0 <= k < |FindIter(s, pos)| ==>
      DelimiterAt(s, FindIter(s, pos)[k].start) == Some(FindIter(s, pos)[k].end)
    decreases |s| - pos
  {
    if pos < |s| {
      match DelimiterAt(s, pos)
      case Some(e) =>
        FindIterSound(s, e);
        var ms := FindIter(s, pos);
        forall k | 0 < k < |ms| ensures DelimiterAt(s, ms[k].start) == Some(ms[k].end) {
          assert ms[k] == FindIter(s, e)[k - 1];
        }
      case None =>
        FindIterSound(s, pos + 1);
    }
  }

  /** `finditer` misses no match: every position from `pos` on where the
      pattern matches starts a reported span or lies inside one. */
  lemma {:induction false} FindIterComplete(s: string, pos: nat, i: nat)
    requires pos <= i < |s| && DelimiterAt(s, i).Some?
    ensures exists k :: 0 <= k < |FindIter(s, pos)| && FindIter(s, pos)[k].start <= i < FindIter(s, pos)[k].end
    decreases |s| - pos
  {
    var ms := FindIter(s, pos);
    match DelimiterAt(s, pos)
    case Some(e) =>
      if i < e {
        assert ms[0] == Match(pos, e);
      } else {
        FindIterComplete(s, e, i);
        var rest := FindIter(s, e);
        var k :| 0 <= k < |rest| && rest[k].start <= i < rest[k].end;
        assert ms[k + 1] == rest[k];
      }
    case None =>
      FindIterComplete(s, pos + 1, i);
  }

  /** The end of the last feature, or 0 when there is none. */
  function LastEnd(fs: seq<Feature>): nat {
    if fs == [] then 0 else fs[|fs| - 1].endIndex
  }

  /** The feature texts, one after the other. */
  function Concat(fs: seq<Feature>): string {
    if fs == [] then [] else Concat(fs[..|fs| - 1]) + fs[|fs| - 1].text
  }

  /** The features cut `text` into consecutive slices from index 0: each
      starts where the previous one ends, is non-empty, lies within the
      text, and carries exactly that slice. */
  ghost predicate Segments(fs: seq<Feature>, text: string) {
    (fs != [] ==> fs[0].startIndex == 0) &&
    (forall j, k :: 0 <= j < k < |fs| && k == j + 1 ==> fs[k].startIndex == fs[j].endIndex) &&
    (forall k :: 0 <= k < |fs| ==>
      fs[k].startIndex < fs[k].endIndex <= |text| &&
      fs[k].text == text[fs[k].startIndex..fs[k].endIndex])
  }

  /** `finditer` reports spans in order, non-empty, inside the text and
      without overlap. */
  ghost predicate Ordered(ms: seq<Match>, n: nat) {
    (forall k :: 0 <= k < |ms| ==> ms[k].start < ms[k].end <= n) &&
    (forall j, k :: 0 <= j < k < |ms| ==> ms[j].end <= ms[k].start)
  }

  /** The end of the last span, or 0 when there is none. */
  function LastMatchEnd(ms: seq<Match>): nat {
    if ms == [] then 0 else ms[|ms| - 1].end
  }

  /** The feature list `split_into_features` builds from the spans `ms`:
      the k-th feature runs from the end of span k - 1 (from 0 for the
      first) to the end of span k. */
  function FeaturesOf(text: string, ms: seq<Match>): (fs: seq<Feature>)
    requires Ordered(ms, |text|)
  {
    if ms == [] then []
    else
      var init := ms[..|ms| - 1];
      var startIndex := LastMatchEnd(init);
      var endIndex := ms[|ms| - 1].end;
      assert startIndex <= ms[|ms| - 1].start;
      FeaturesOf(text, init) + [Feature(startIndex, endIndex, text[startIndex..endIndex])]
  }

  /** One feature per span, ending where the span ends. */
  lemma {:induction false} FeaturesOfEnds(text: string, ms: seq<Match>)
    requires Ordered(ms, |text|)
    ensures |FeaturesOf(text, ms)| == |ms|
    ensures forall k :: 0 <= k < |ms| ==> FeaturesOf(text, ms)[k].endIndex == ms[k].end
  {
    if ms != [] {
      var init := ms[..|ms| - 1];
      FeaturesOfEnds(text, init);
      var fs := FeaturesOf(text, init);
      forall k | 0 <= k < |ms| ensures FeaturesOf(text, ms)[k].endIndex == ms[k].end {
        if k < |fs| { assert FeaturesOf(text, ms)[k] == fs[k] && ms[k] == init[k]; }
      }
    }
  }

  /** The last span extends the feature list of the others by one feature. */
  lemma {:induction false} FeaturesOfSnoc(text: string, ms: seq<Match>)
    requires Ordered(ms, |text|) && ms != []
    ensures Ordered(ms[..|ms| - 1], |text|)
    ensures LastMatchEnd(ms[..|ms| - 1]) <= ms[|ms| - 1].start < ms[|ms| - 1].end <= |text|
    ensures var a, b := LastMatchEnd(ms[..|ms| - 1]), ms[|ms| - 1].end;
      FeaturesOf(text, ms) == FeaturesOf(text, ms[..|ms| - 1]) + [Feature(a, b, text[a..b])]
  {
  }

  lemma ConcatSnoc(fs: seq<Feature>, f: Feature)
    ensures Concat(fs + [f]) == Concat(fs) + f.text
  {
    assert (fs + [f])[..|fs|] == fs;
  }

  /** A feature that starts where the list ends keeps the list a cut of
      the text. */
  lemma SegmentsSnoc(fs: seq<Feature>, f: Feature, text: string)
    requires Segments(fs, text)
    requires f.startIndex == LastEnd(fs) && f.startIndex < f.endIndex <= |text|
    requires f.text == text[f.startIndex..f.endIndex]
    ensures Segments(fs + [f], text)
  {
    var all := fs + [f];
    forall k | 0 <= k < |fs| ensures all[k] == fs[k] { }
  }

  /** The features cut the text into consecutive non-empty slices from
      index 0, each carrying its slice of the text. */
  lemma {:induction false} FeaturesOfSegments(text: string, ms: seq<Match>)
    requires Ordered(ms, |text|)
    ensures Segments(FeaturesOf(text, ms), text)
  {
    if ms != [] {
      var init := ms[..|ms| - 1];
      FeaturesOfSnoc(text, ms);
      FeaturesOfSegments(text, init);
      FeaturesOfEnds(text, init);
      var a, b := LastMatchEnd(init), ms[|ms| - 1].end;
      SegmentsSnoc(FeaturesOf(text, init), Feature(a, b, text[a..b]), text);
    }
  }

  /** Together the features spell out the text up to the end of the last span. */
  lemma {:induction false} FeaturesOfConcat(text: string, ms: seq<Match>)
    requires Ordered(ms, |text|)
    ensures Concat(FeaturesOf(text, ms)) == text[..LastMatchEnd(ms)]
  {
    if ms != [] {
      var init := ms[..|ms| - 1];
      FeaturesOfSnoc(text, ms);
      FeaturesOfConcat(text, init);
      var a, b := LastMatchEnd(init), ms[|ms| - 1].end;
      ConcatSnoc(FeaturesOf(text, init), Feature(a, b, text[a..b]));
      assert text[..b] == text[..a] + text[a..b];
    }
  }

  /** `Claim.split_into_features`: the loop over `finditer`'s matches,
      appending one feature per match and moving `startindex` to its end. */
  method SplitIntoFeatures(text: string) returns (features: seq<Feature>)
    ensures features == FeaturesOf(text, FindIter(text, 0))
    ensures Segments(features, text)
    ensures Concat(features) == text[..LastEnd(features)]
    ensures features == [] <==> forall i :: 0 <= i < |text| ==> DelimiterAt(text, i).None?
  {
    var matches := FindIter(text, 0);
    features := [];
    var startIndex := 0;
    for i := 0 to |matches|
      invariant features == FeaturesOf(text, matches[..i])
      invariant startIndex == LastMatchEnd(matches[..i])
    {
      var endIndex := matches[i].end;
      assert matches[..i + 1][..i] == matches[..i];
      features := features + [Feature(startIndex, endIndex, text[startIndex..endIndex])];
      startIndex := endIndex;
    }
    assert matches[..|matches|] == matches;
    FeatureListFacts(text);
  }

  /** What the list of features of a text is, gathered in one place. */
  lemma FeatureListFacts(text: string)
    ensures var fs := FeaturesOf(text, FindIter(text, 0));
      Segments(fs, text) && Concat(fs) == text[..LastEnd(fs)] &&
      (fs == [] <==> forall i :: 0 <= i < |text| ==> DelimiterAt(text, i).None?)
  {
    var ms := FindIter(text, 0);
    FeaturesOfSegments(text, ms);
    FeaturesOfEnds(text, ms);
    FeaturesOfConcat(text, ms);
    NoFeaturesWithoutDelimiter(text);
  }

  /** There are no features exactly when the pattern matches nowhere. */
  lemma NoFeaturesWithoutDelimiter(s: string)
    ensures FindIter(s, 0) == [] <==> forall i :: 0 <= i < |s| ==> DelimiterAt(s, i).None?
  {
    var ms := FindIter(s, 0);
    if ms != [] {
      FindIterSound(s, 0);
      assert DelimiterAt(s, ms[0].start).Some?;
    }
    forall i | 0 <= i < |s| && DelimiterAt(s, i).Some? ensures ms != [] {
      FindIterComplete(s, 0, i);
    }
  }

  /** A final full stop followed only by whitespace closes the last feature
      at the end of the text, unless the comma alternative has swallowed
      that full stop as its `.?` character and stopped at a line break with
      more whitespace after it (see `CommaSwallowsFinalStop`). */
  lemma LastFeatureReachesEnd(s: string, p: nat)
    requires p < |s| && s[p] == '.' && AllSpace(s[p + 1..])
    requires !(p > 0 && s[p - 1] == ',' && p + 2 < |s| && s[p + 1] == '\n')
    ensures FindIter(s, 0) != [] && FindIter(s, 0)[|FindIter(s, 0)| - 1].end == |s|
  {
    ReachesEndFrom(s, p, 0);
  }

  lemma {:induction false} ReachesEndFrom(s: string, p: nat, pos: nat)
    requires p < |s| && s[p] == '.' && AllSpace(s[p + 1..])
    requires !(p > 0 && s[p - 1] == ',' && p + 2 < |s| && s[p + 1] == '\n')
    requires pos <= p
    ensures FindIter(s, pos) != [] && FindIter(s, pos)[|FindIter(s, pos)| - 1].end == |s|
    decreases p - pos
  {
    FinalStopMatches(s, p);
    if pos == p {
      assert FindIter(s, pos) == [Match(p, |s|)] + FindIter(s, |s|);
    } else {
      match DelimiterAt(s, pos)
      case Some(e) =>
        EarlierMatchStops(s, p, pos);
        if e == |s| {
          assert FindIter(s, pos) == [Match(pos, e)] + FindIter(s, e);
        } else {
          ReachesEndFrom(s, p, e);
        }
      case None =>
        ReachesEndFrom(s, p, pos + 1);
    }
  }

  lemma FinalStopMatches(s: string, p: nat)
    requires p < |s| && s[p] == '.' && AllSpace(s[p + 1..])
    ensures DelimiterAt(s, p) == Some(|s|)
  {
    forall k | p + 1 <= k < |s| ensures IsSpace(s[k]) { assert s[k] == s[p + 1..][k - p - 1]; }
    RunEndIs(s, p + 1, |s|, IsSpace);
  }

  /** A match that starts before the final full stop stops at it or before
      it, or runs to the end of the text. */
  lemma EarlierMatchStops(s: string, p: nat, i: nat)
    requires p < |s| && s[p] == '.' && AllSpace(s[p + 1..])
    requires !(p > 0 && s[p - 1] == ',' && p + 2 < |s| && s[p + 1] == '\n')
    requires i < p && DelimiterAt(s, i).Some?
    ensures DelimiterAt(s, i).value <= p || DelimiterAt(s, i).value == |s|
  {
    forall k | p + 1 <= k < |s| ensures IsSpace(s[k]) { assert s[k] == s[p + 1..][k - p - 1]; }
    if s[i] == ';' || s[i] == ':' {
      var w := RunEnd(s, i + 1, IsSpace);
      assert w <= p;
      if OccursAt(s, "and", w) {
        assert s[w] == s[w..w + 3][0];
        assert s[w + 1] == s[w..w + 3][1];
        assert s[w + 2] == s[w..w + 3][2];
      }
    } else if s[i] == ',' {
      if i + 2 < |s| && OccursAt(s, "and", i + 2) {
        assert s[i + 2] == s[i + 2..i + 5][0];
        assert s[i + 3] == s[i + 2..i + 5][1];
        assert s[i + 4] == s[i + 2..i + 5][2];
      }
      if i + 1 < |s| && OccursAt(s, "and", i + 1) {
        assert s[i + 1] == s[i + 1..i + 4][0];
        assert s[i + 2] == s[i + 1..i + 4][1];
        assert s[i + 3] == s[i + 1..i + 4][2];
      }
    }
  }

  /** The exception: in ",.\n" at the end of the text the comma alternative
      takes the full stop as its `.?` character, and the last feature stops
      after that line break, before the remaining whitespace. */
  lemma CommaSwallowsFinalStop()
    ensures var s := ",.\n\n"; FindIter(s, 0) == [Match(0, 3)] && 3 < |s|
  {
    var s := ",.\n\n";
    assert CommaEnd(s, 0) == Some(3);
    assert DelimiterAt(s, 3) == None;
    assert FindIter(s, 4) == [];
    assert FindIter(s, 3) == [];
    assert FindIter(s, 0) == [Match(0, 3)] + FindIter(s, 3);
  }
}
