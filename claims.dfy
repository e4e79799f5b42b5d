/** A patent claim: the claim number and text, its category and dependency,
    its words and their part-of-speech tags, and its features. */
module Claims {
  import opened Text
  import opened ClaimText
  import opened Features

  /** Part-of-speech tags of nouns: every tag that mentions "NN". */
  predicate IsNounTag(tag: string) {
    Contains(tag, "NN")
  }

  /** `Claim.nouns`: the words of `pos` whose tag is a noun tag, in order. */
  function Nouns(pos: seq<(string, string)>): seq<string> {
    if pos == [] then []
    else Nouns(pos[..|pos| - 1]) + (if IsNounTag(pos[|pos| - 1].1) then [pos[|pos| - 1].0] else [])
  }

  /** The positions of the noun-tagged words of `pos`, in increasing order. */
  function NounPositions(pos: seq<(string, string)>): (ps: seq<nat>)
    ensures forall k :: 0 <= k < |ps| ==> ps[k] < |pos|
  {
    if pos == [] then []
    else NounPositions(pos[..|pos| - 1]) + (if IsNounTag(pos[|pos| - 1].1) then [|pos| - 1] else [])
  }

  /** The noun positions are increasing and are exactly the positions whose
      tag is a noun tag. */
  lemma {:induction false} NounPositionsExact(pos: seq<(string, string)>)
    ensures forall j, k :: 0 <= j < k < |NounPositions(pos)| ==> NounPositions(pos)[j] < NounPositions(pos)[k]
    ensures forall i :: 0 <= i < |pos| ==> (i in NounPositions(pos) <==> IsNounTag(pos[i].1))
  {
    if pos != [] {
      var init := pos[..|pos| - 1];
      NounPositionsExact(init);
      var ps := NounPositions(init);
      assert forall i :: 0 <= i < |init| ==> pos[i] == init[i];
    }
  }

  /** The nouns are exactly the words at the noun positions: the words whose
      tag mentions "NN", all of them and in their original order. */
  lemma {:induction false} NounsAtPositions(pos: seq<(string, string)>)
    ensures |Nouns(pos)| == |NounPositions(pos)|
    ensures forall k :: 0 <= k < |Nouns(pos)| ==> Nouns(pos)[k] == pos[NounPositions(pos)[k]].0
  {
    if pos != [] {
      var init := pos[..|pos| - 1];
      NounsAtPositions(init);
      var ns, ps := Nouns(init), NounPositions(init);
      forall k | 0 <= k < |ns| ensures Nouns(pos)[k] == pos[NounPositions(pos)[k]].0 {
        assert Nouns(pos)[k] == ns[k] && NounPositions(pos)[k] == ps[k];
        assert ps[k] < |init| && pos[ps[k]] == init[ps[k]];
      }
    }
  }

  /** A word is a noun exactly when it occurs in `pos` with a noun tag. */
  lemma NounsMembers(pos: seq<(string, string)>, w: string)
    ensures w in Nouns(pos) <==> exists i :: 0 <= i < |pos| && pos[i].0 == w && IsNounTag(pos[i].1)
  {
    NounsAtPositions(pos);
    NounPositionsExact(pos);
    var ns, ps := Nouns(pos), NounPositions(pos);
    if w in ns {
      var k :| 0 <= k < |ns| && ns[k] == w;
      assert pos[ps[k]].0 == w && IsNounTag(pos[ps[k]].1);
    }
    if i :| 0 <= i < |pos| && pos[i].0 == w && IsNounTag(pos[i].1) {
      var k :| 0 <= k < |ps| && ps[k] == i;
      assert ns[k] == w;
    }
  }

  /** Filtering a concatenation filters each part. */
  lemma {:induction false} NounsAppend(a: seq<(string, string)>, b: seq<(string, string)>)
    ensures Nouns(a + b) == Nouns(a) + Nouns(b)
  {
    if b == [] {
      assert a + b == a;
    } else {
      assert (a + b)[..|a + b| - 1] == a + b[..|b| - 1];
      NounsAppend(a, b[..|b| - 1]);
    }
  }

  /** A patent claim after `Claim.__init__` has run. The claim string itself
      is not kept: `text` is what remains once the number is taken off. */
  class Claim {
    const number: Option<nat>
    const text: string
    const category: string
    const dependency: nat
    const words: seq<string>
    const pos: seq<(string, string)>
    const features: seq<Feature>

    /** The word tokenizer and the part-of-speech tagger are supplied by the
        caller. Category, dependency, words and features are all computed on
        the text with the number taken off. */
    constructor (claimString: string, wordTokenize: string -> seq<string>,
                 posTag: seq<string> -> seq<(string, string)>)
      ensures (number, text) == GetNumber(claimString)
      ensures category == DetectCategory(text)
      ensures dependency == DetectDependency(text)
      ensures words == wordTokenize(text) && pos == posTag(words)
      ensures features == FeaturesOf(text, FindIter(text, 0))
      ensures Segments(features, text) && Concat(features) == text[..LastEnd(features)]
    {
      var located := GetNumber(claimString);
      var t := located.1;
      number := located.0;
      text := t;
      category := DetectCategory(t);
      dependency := DetectDependency(t);
      var ws := wordTokenize(t);
      words := ws;
      pos := posTag(ws);
      var fs := SplitIntoFeatures(t);
      features := fs;
    }
  }
}
