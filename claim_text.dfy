/** The three pattern rules that `Claim` applies to the claim text:
    `get_number`, `detect_category` and `detect_dependency`. Each regular
    expression is written out as a scanner over the string, beside a
    declarative statement of what the expression matches. */
module ClaimText {
  import opened Text

  // ---------------------------------------------------------------------
  // get_number: re.search(r'\d+\.', text)
  // ---------------------------------------------------------------------

  /** `\d+\.` matches `s[i..e + 1]`: digits on `s[i..e]`, a full stop at `e`. */
  predicate NumberMatch(s: string, i: nat, e: nat) {
    i < e < |s| && AllDigits(s[i..e]) && s[e] == '.'
  }

  /** The match `re.search` reports: the one that starts leftmost. */
  ghost predicate FirstNumberMatch(s: string, i: nat, e: nat) {
    NumberMatch(s, i, e) && forall i': nat, e': nat :: NumberMatch(s, i', e') ==> i <= i'
  }

  /** The scanner's test at position `i`: the greedy `\d+` from `i` is
      non-empty and is followed by a full stop. */
  predicate NumberAt(s: string, i: nat) {
    i < |s| && IsDigit(s[i]) && RunEnd(s, i, IsDigit) < |s| && s[RunEnd(s, i, IsDigit)] == '.'
  }

  /** The greedy digit run is the only one a match at `i` can use. */
  lemma NumberAtMatches(s: string, i: nat)
    ensures NumberAt(s, i) ==> NumberMatch(s, i, RunEnd(s, i, IsDigit))
    ensures forall e: nat :: NumberMatch(s, i, e) ==> NumberAt(s, i) && e == RunEnd(s, i, IsDigit)
  {
    forall e: nat | NumberMatch(s, i, e) ensures NumberAt(s, i) && e == RunEnd(s, i, IsDigit) {
      assert IsDigit(s[i..e][0]);
      forall k | i <= k < e ensures IsDigit(s[k]) { assert s[k] == s[i..e][k - i]; }
      RunEndIs(s, i, e, IsDigit);
    }
    if NumberAt(s, i) {
      var e := RunEnd(s, i, IsDigit);
      assert AllDigits(s[i..e]) by {
        forall k | 0 <= k < e - i ensures IsDigit(s[i..e][k]) { assert s[i..e][k] == s[i + k]; }
      }
    }
  }

  /** The first position the scanner accepts starts the leftmost match. */
  lemma NumberFound(s: string, i: nat)
    requires NumberAt(s, i) && forall k :: 0 <= k < i ==> !NumberAt(s, k)
    ensures FirstNumberMatch(s, i, RunEnd(s, i, IsDigit))
  {
    NumberAtMatches(s, i);
    forall i': nat, e': nat | NumberMatch(s, i', e') ensures i <= i' { NumberAtMatches(s, i'); }
  }

  /** A scanner that accepts no position means there is no match. */
  lemma NumberAbsent(s: string)
    requires forall k :: 0 <= k < |s| ==> !NumberAt(s, k)
    ensures forall i: nat, e: nat :: !NumberMatch(s, i, e)
  {
    forall i: nat, e: nat ensures !NumberMatch(s, i, e) { NumberAtMatches(s, i); }
  }

  /** Where `re.search` finds `\d+\.`: the first position the scanner
      accepts. */
  function NumberStart(s: string): (r: Option<nat>)
    ensures r.Some? ==> NumberAt(s, r.value) && forall k :: 0 <= k < r.value ==> !NumberAt(s, k)
    ensures r.None? ==> forall k :: 0 <= k < |s| ==> !NumberAt(s, k)
  {
    var p := (i: nat) => NumberAt(s, i);
    var r := First(p, 0, |s|);
    if r.None? then
      assert forall k :: 0 <= k < |s| ==> !NumberAt(s, k) by {
        forall k | 0 <= k < |s| ensures !NumberAt(s, k) { assert !p(k); }
      }
      r
    else
      assert forall k :: 0 <= k < r.value ==> !NumberAt(s, k) by {
        forall k | 0 <= k < r.value ensures !NumberAt(s, k) { assert !p(k); }
      }
      assert p(r.value);
      r
  }

  /** `Claim.get_number`: the claim number and the remaining text. With a
      match, the number is `int` of the leftmost digit run followed by a
      full stop and the text is what follows that full stop, stripped; with
      none, there is no number and the text is the input, unstripped. */
  function GetNumber(s: string): (r: (Option<nat>, string))
    ensures r.0.None? ==> r.1 == s && forall i: nat, e: nat :: !NumberMatch(s, i, e)
    ensures r.0.Some? ==> exists i: nat, e: nat ::
      FirstNumberMatch(s, i, e) && AllDigits(s[i..e]) && r == (Some(DigitsValue(s[i..e])), Strip(s[e + 1..]))
  {
    match NumberStart(s)
    case None =>
      NumberAbsent(s);
      (None, s)
    case Some(i) =>
      var e := RunEnd(s, i, IsDigit);
      NumberFound(s, i);
      NumberAtMatches(s, i);
      NumberResult(s, i, e);
      (Some(DigitsValue(s[i..e])), Strip(s[e + 1..]))
  }

  /** The leftmost match is a witness for what `GetNumber` returns. */
  lemma NumberResult(s: string, i: nat, e: nat)
    requires FirstNumberMatch(s, i, e)
    ensures AllDigits(s[i..e]) && exists i': nat, e': nat ::
      FirstNumberMatch(s, i', e') && AllDigits(s[i'..e']) &&
      (Some(DigitsValue(s[i..e])), Strip(s[e + 1..])) == (Some(DigitsValue(s[i'..e'])), Strip(s[e' + 1..]))
  {
  }

  /** A text that opens with digits and a full stop is numbered by them. */
  lemma GetNumberAtStart(s: string, e: nat)
    requires NumberMatch(s, 0, e)
    ensures GetNumber(s) == (Some(DigitsValue(s[..e])), Strip(s[e + 1..]))
  {
    var r := GetNumber(s);
    NumberAtMatches(s, 0);
    var i: nat, e': nat :| FirstNumberMatch(s, i, e') && AllDigits(s[i..e']) && r == (Some(DigitsValue(s[i..e'])), Strip(s[e' + 1..]));
    NumberAtMatches(s, i);
    assert s[i..e'] == s[..e];
  }

  /** A claim written "<n>.<body>" yields the number `n` and the stripped body. */
  lemma GetNumberOfNumbered(n: nat, body: string)
    ensures GetNumber(NatToDigits(n) + "." + body) == (Some(n), Strip(body))
  {
    var ds := NatToDigits(n);
    var s := ds + "." + body;
    assert s[..|ds|] == ds;
    assert s[|ds| + 1..] == body;
    GetNumberAtStart(s, |ds|);
    DigitsRoundTrip(n);
  }

  // ---------------------------------------------------------------------
  // detect_category:
  //   re.search(r'(A|An|The)\s([\w-]+\s)*(method|process)\s(of|for)?', text)
  // The trailing `(of|for)?` may match the empty string, so it never
  // decides whether there is a match.
  // ---------------------------------------------------------------------

  /** The class `[\w-]`. */
  predicate IsTokenChar(c: char) {
    IsWordChar(c) || c == '-'
  }

  predicate AllTokenChars(u: string) {
    forall j :: 0 <= j < |u| ==> IsTokenChar(u[j])
  }

  /** `w` is in the language of `([\w-]+\s)*`. */
  ghost predicate TokenSeq(w: string)
    decreases |w|, 1
  {
    w == [] || exists k: nat :: TokenThen(w, k)
  }

  /** `w` is one `[\w-]+\s` with its `\s` at `k`, then more of `([\w-]+\s)*`. */
  ghost predicate TokenThen(w: string, k: nat)
    decreases |w|, 0
  {
    0 < k < |w| && AllTokenChars(w[..k]) && IsSpace(w[k]) && TokenSeq(w[k + 1..])
  }

  /** `(method|process)\s` matches at `q`. */
  predicate KeywordAt(s: string, q: nat) {
    (OccursAt(s, "method", q) && q + 6 < |s| && IsSpace(s[q + 6])) ||
    (OccursAt(s, "process", q) && q + 7 < |s| && IsSpace(s[q + 7]))
  }

  /** `(A|An|The)\s` matches `s[i..e + 1]`, with the whitespace at `e`. */
  predicate ArticleAt(s: string, i: nat, e: nat) {
    ((OccursAt(s, "A", i) && e == i + 1) || (OccursAt(s, "An", i) && e == i + 2) || (OccursAt(s, "The", i) && e == i + 3)) &&
    e < |s| && IsSpace(s[e])
  }

  /** The whole category pattern matches at `i`. */
  ghost predicate MethodPatternAt(s: string, i: nat) {
    exists e: nat, q: nat :: ArticleAt(s, i, e) && e + 1 <= q <= |s| && TokenSeq(s[e + 1..q]) && KeywordAt(s, q)
  }

  /** The scanner for `([\w-]+\s)*(method|process)\s` from `q`. Backtracking
      cannot help the greedy `[\w-]+`: a shorter run would be followed by a
      `[\w-]` character, never by the `\s` it needs, so the token boundaries
      are determined and the scanner tries the keyword at each of them. */
  predicate PhraseFrom(s: string, q: nat)
    requires q <= |s|
    decreases |s| - q
  {
    if KeywordAt(s, q) then true
    else
      var r := RunEnd(s, q, IsTokenChar);
      r > q && r < |s| && IsSpace(s[r]) && PhraseFrom(s, r + 1)
  }

  /** What the scanner accepts is in the language of the pattern. */
  lemma {:induction false} PhraseFromSound(s: string, q: nat)
    requires q <= |s| && PhraseFrom(s, q)
    ensures exists q': nat :: q <= q' <= |s| && TokenSeq(s[q..q']) && KeywordAt(s, q')
    decreases |s| - q
  {
    if KeywordAt(s, q) {
      assert TokenSeq(s[q..q]);
    } else {
      var r := RunEnd(s, q, IsTokenChar);
      PhraseFromSound(s, r + 1);
      var q': nat :| r + 1 <= q' <= |s| && TokenSeq(s[r + 1..q']) && KeywordAt(s, q');
      var w := s[q..q'];
      TokenStep(s, q, r, q');
      assert TokenThen(w, r - q);
    }
  }

  /** One token of the scanner, seen in the slice `s[q..q']`. */
  lemma TokenStep(s: string, q: nat, r: nat, q': nat)
    requires q < r < q' <= |s|
    ensures s[q..q'][..r - q] == s[q..r] && s[q..q'][r - q] == s[r] && s[q..q'][r - q + 1..] == s[r + 1..q']
  {
  }

  /** Everything in the language of the pattern is accepted by the scanner:
      a match forces the scanner's token boundaries. */
  lemma {:induction false} PhraseFromComplete(s: string, q: nat, q': nat)
    requires q <= q' <= |s| && TokenSeq(s[q..q']) && KeywordAt(s, q')
    ensures PhraseFrom(s, q)
    decreases |s| - q
  {
    if !KeywordAt(s, q) {
      var w := s[q..q'];
      assert q' != q;
      var k: nat :| TokenThen(w, k);
      TokenStep(s, q, q + k, q');
      forall j | q <= j < q + k ensures IsTokenChar(s[j]) { assert s[j] == s[q..q + k][j - q]; }
      RunEndIs(s, q, q + k, IsTokenChar);
      PhraseFromComplete(s, q + k + 1, q');
    }
  }

  lemma PhraseFromCorrect(s: string, q: nat)
    requires q <= |s|
    ensures PhraseFrom(s, q) <==> exists q': nat :: q <= q' <= |s| && TokenSeq(s[q..q']) && KeywordAt(s, q')
  {
    if PhraseFrom(s, q) { PhraseFromSound(s, q); }
    forall q': nat | q <= q' <= |s| && TokenSeq(s[q..q']) && KeywordAt(s, q') ensures PhraseFrom(s, q) {
      PhraseFromComplete(s, q, q');
    }
  }

  /** The scanner's test at position `i`: an article alternative, then the phrase. */
  predicate MethodAt(s: string, i: nat) {
    (OccursAt(s, "A", i) && i + 1 < |s| && IsSpace(s[i + 1]) && PhraseFrom(s, i + 2)) ||
    (OccursAt(s, "An", i) && i + 2 < |s| && IsSpace(s[i + 2]) && PhraseFrom(s, i + 3)) ||
    (OccursAt(s, "The", i) && i + 3 < |s| && IsSpace(s[i + 3]) && PhraseFrom(s, i + 4))
  }

  lemma MethodAtCorrect(s: string, i: nat)
    ensures MethodAt(s, i) <==> MethodPatternAt(s, i)
  {
    forall e: nat | ArticleAt(s, i, e) ensures
      (exists q: nat :: e + 1 <= q <= |s| && TokenSeq(s[e + 1..q]) && KeywordAt(s, q)) <==> PhraseFrom(s, e + 1)
    {
      PhraseFromCorrect(s, e + 1);
    }
    if MethodAt(s, i) {
      if OccursAt(s, "A", i) && i + 1 < |s| && IsSpace(s[i + 1]) && PhraseFrom(s, i + 2) {
        assert ArticleAt(s, i, i + 1);
      } else if OccursAt(s, "An", i) && i + 2 < |s| && IsSpace(s[i + 2]) && PhraseFrom(s, i + 3) {
        assert ArticleAt(s, i, i + 2);
      } else {
        assert ArticleAt(s, i, i + 3);
      }
    }
  }

  /** `Claim.detect_category`: "method" exactly when the category pattern
      matches somewhere in the text, "system" otherwise. */
  function DetectCategory(s: string): (r: string)
    ensures r == "method" || r == "system"
    ensures r == "method" <==> exists i: nat :: MethodPatternAt(s, i)
  {
    var p := (i: nat) => MethodAt(s, i);
    var m := First(p, 0, |s|);
    if m.Some? then
      MethodAtCorrect(s, m.value);
      "method"
    else
      assert forall i: nat :: !MethodPatternAt(s, i) by {
        forall i: nat ensures !MethodPatternAt(s, i) {
          MethodAtCorrect(s, i);
          if i < |s| { assert !p(i); }
        }
      }
      "system"
  }

  // ---------------------------------------------------------------------
  // detect_dependency:
  //   re.search(r'(of|to|with|in)?\s(C|c)laims?\s\d+((\sto\s\d+)|(\sor\s(C|c)laim\s\d+))?(,\swherein)?', text)
  //   and, failing that, re.search(r'\s(preceding|previous)\s(C|c)laims?(,\swherein)?', text)
  // The groups after `\d+` may match the empty string and hold no digit
  // before the first one, so they decide neither the match start nor the
  // number that is read.
  // ---------------------------------------------------------------------

  /** `(C|c)laim` matches at `c`. */
  predicate ClaimWordAt(s: string, c: nat) {
    c + 5 <= |s| && (s[c] == 'C' || s[c] == 'c') && s[c + 1..c + 5] == "laim"
  }

  /** Where `\s(C|c)laims?\s\d` starting at `w` has its first digit, if it
      matches there; the greedy `s?` is tried with the `s` first. */
  function ClaimDigits(s: string, w: nat): (d: Option<nat>)
    ensures d.Some? ==> w + 7 <= d.value < |s| && IsDigit(s[d.value]) && IsSpace(s[w])
  {
    if w < |s| && IsSpace(s[w]) && ClaimWordAt(s, w + 1) then
      if w + 8 < |s| && s[w + 6] == 's' && IsSpace(s[w + 7]) && IsDigit(s[w + 8]) then Some(w + 8)
      else if w + 7 < |s| && IsSpace(s[w + 6]) && IsDigit(s[w + 7]) then Some(w + 7)
      else None
    else None
  }

  predicate ClaimRefAt(s: string, w: nat) {
    ClaimDigits(s, w).Some?
  }

  /** The claim reference a dependent claim is read from: the first one. */
  ghost predicate FirstClaimRef(s: string, w: nat) {
    ClaimRefAt(s, w) && forall w': nat :: ClaimRefAt(s, w') ==> w <= w'
  }

  /** Value of the greedy `\d+` at `d`. */
  function RunValue(s: string, d: nat): nat
    requires d <= |s|
  {
    var e := RunEnd(s, d, IsDigit);
    assert AllDigits(s[d..e]) by {
      forall k | 0 <= k < e - d ensures IsDigit(s[d..e][k]) { assert s[d..e][k] == s[d + k]; }
    }
    DigitsValue(s[d..e])
  }

  /** Length of the optional `(of|to|with|in)` that begins at `i`, or 0. */
  function PrefixLength(s: string, i: nat): (n: nat)
    ensures n == 0 || n == 2 || n == 4
    ensures n > 0 ==> i + n <= |s|
  {
    if OccursAt(s, "of", i) then 2
    else if OccursAt(s, "to", i) then 2
    else if OccursAt(s, "with", i) then 4
    else if OccursAt(s, "in", i) then 2
    else 0
  }

  /** The first dependency pattern matches at `i`: the optional group
      `(of|to|with|in)?` is greedy, so a prefix is tried first; without one
      the match would have to start with `\s`. */
  predicate DependencyAt(s: string, i: nat) {
    ClaimRefAt(s, i + PrefixLength(s, i)) || ClaimRefAt(s, i)
  }

  /** Where the `\s` of the match that starts at `i` is. */
  function DependencyRef(s: string, i: nat): nat {
    if ClaimRefAt(s, i + PrefixLength(s, i)) then i + PrefixLength(s, i) else i
  }

  /** The characters of a prefix are letters, never whitespace. */
  lemma PrefixNotSpace(s: string, i: nat, j: nat)
    requires i <= j < i + PrefixLength(s, i)
    ensures !IsSpace(s[j])
  {
    var n := PrefixLength(s, i);
    assert s[j] == s[i..i + n][j - i];
  }

  /** `\s(preceding|previous)\s(C|c)laim` matches at `w` (the `s?` and
      `(,\swherein)?` that follow may be empty). */
  predicate PrecedingRefAt(s: string, w: nat) {
    w < |s| && IsSpace(s[w]) &&
    ((OccursAt(s, "preceding", w + 1) && w + 10 < |s| && IsSpace(s[w + 10]) && ClaimWordAt(s, w + 11)) ||
     (OccursAt(s, "previous", w + 1) && w + 9 < |s| && IsSpace(s[w + 9]) && ClaimWordAt(s, w + 10)))
  }

  /** `Claim.detect_dependency`. If the text refers to a claim by number,
      the dependency is the value of the digit run at the first such
      reference; failing that, 1 when it refers to "preceding" or
      "previous" claims; otherwise 0. */
  function DetectDependency(s: string): (dep: nat)
    ensures (exists w: nat :: ClaimRefAt(s, w)) ==>
      exists w: nat :: FirstClaimRef(s, w) && dep == RunValue(s, ClaimDigits(s, w).value)
    ensures (forall w: nat :: !ClaimRefAt(s, w)) ==>
      dep == if exists w: nat :: PrecedingRefAt(s, w) then 1 else 0
  {
    var p := (i: nat) => DependencyAt(s, i);
    match First(p, 0, |s|)
    case Some(i) =>
      var w := DependencyRef(s, i);
      assert FirstClaimRef(s, w) by {
        forall w': nat | ClaimRefAt(s, w') ensures w <= w' {
          assert p(w');
          if w' < w { PrefixNotSpace(s, i, w'); }
        }
      }
      RunValue(s, ClaimDigits(s, w).value)
    case None =>
      assert forall w: nat :: !ClaimRefAt(s, w) by {
        forall w: nat ensures !ClaimRefAt(s, w) { if w < |s| { assert !p(w); } }
      }
      var q := (w: nat) => PrecedingRefAt(s, w);
      var m := First(q, 0, |s|);
      if m.Some? then
        assert PrecedingRefAt(s, m.value);
        1
      else
        assert forall w: nat :: !PrecedingRefAt(s, w) by {
          forall w: nat ensures !PrecedingRefAt(s, w) { if w < |s| { assert !q(w); } }
        }
        0
  }

  /** A numbered claim reference wins over a "preceding claims" phrase. */
  lemma ClaimNumberTakesPriority(s: string, w: nat, v: nat)
    requires PrecedingRefAt(s, v) && ClaimRefAt(s, w)
    ensures exists w0: nat :: w0 <= w && ClaimRefAt(s, w0) && DetectDependency(s) == RunValue(s, ClaimDigits(s, w0).value)
  {
  }
}
