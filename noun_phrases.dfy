/** The walk over a chunked parse tree that prints the noun phrases of a
    claim, one per line. The printed text is collected as the sequence of
    strings the walk writes, in order. */
module NounPhrases {
  import opened Text

  /** A chunk tree: a leaf is a (token, tag) pair, a node has a label such as
      "S" or "NP" and its children. */
  datatype Tree = Leaf(token: string, tag: string) | Node(nodeLabel: string, children: seq<Tree>)

  /** Labels that restart the walk with the flag cleared ("S" wins over "NP"). */
  predicate SentenceLabel(l: string) {
    Contains(l, "S")
  }

  /** Labels whose children are printed and followed by a line break. */
  predicate PhraseLabel(l: string) {
    !Contains(l, "S") && Contains(l, "NP")
  }

  /** What `traverse(t, np)` prints: a leaf prints its token and a space when
      the flag is set; a node labelled with "S" walks its children with the
      flag cleared; a node labelled with "NP" walks them with the flag set and
      then ends the line; any other node prints nothing. */
  function Traverse(t: Tree, np: bool): seq<string>
    decreases t
  {
    match t
    case Leaf(tok, _) => if np then [tok + " "] else []
    case Node(l, cs) =>
      if SentenceLabel(l) then TraverseAll(cs, false)
      else if PhraseLabel(l) then TraverseAll(cs, true) + ["\n"]
      else []
  }

  /** The children of one node, walked left to right with the same flag. */
  function TraverseAll(cs: seq<Tree>, np: bool): seq<string>
    decreases cs
  {
    if cs == [] then [] else Traverse(cs[0], np) + TraverseAll(cs[1..], np)
  }

  lemma {:induction false} TraverseAllAppend(a: seq<Tree>, b: seq<Tree>, np: bool)
    ensures TraverseAll(a + b, np) == TraverseAll(a, np) + TraverseAll(b, np)
  {
    if a != [] {
      assert (a + b)[0] == a[0] && (a + b)[1..] == a[1..] + b;
      TraverseAllAppend(a[1..], b, np);
    } else {
      assert a + b == b;
    }
  }

  /** Walking one more child appends that child's output. */
  lemma TraverseAllSnoc(cs: seq<Tree>, i: nat, np: bool)
    requires i < |cs|
    ensures TraverseAll(cs[..i + 1], np) == TraverseAll(cs[..i], np) + Traverse(cs[i], np)
  {
    assert cs[..i + 1] == cs[..i] + [cs[i]];
    TraverseAllAppend(cs[..i], [cs[i]], np);
    assert TraverseAll([cs[i]], np) == Traverse(cs[i], np) + TraverseAll([], np);
  }

  /** The walk that `Claim.print_nps` starts at the root with the flag cleared. */
  class Printer {
    /** Everything printed so far, one `print` call per element. */
    var output: seq<string>

    constructor ()
      ensures output == []
    {
      output := [];
    }

    method Walk(t: Tree, np: bool)
      modifies this
      ensures output == old(output) + Traverse(t, np)
      decreases t
    {
      match t
      case Leaf(tok, _) =>
        if np {
          output := output + [tok + " "];
        }
      case Node(l, cs) =>
        if SentenceLabel(l) {
          WalkChildren(t, false);
        } else if PhraseLabel(l) {
          WalkChildren(t, true);
          output := output + ["\n"];
        }
    }

    /** `for child in t: traverse(child, np)`. */
    method WalkChildren(t: Tree, np: bool)
      requires t.Node?
      modifies this
      ensures output == old(output) + TraverseAll(t.children, np)
      decreases t, 0
    {
      var cs := t.children;
      for i := 0 to |cs|
        invariant output == old(output) + TraverseAll(cs[..i], np)
      {
        assert cs[i] in cs;
        Walk(cs[i], np);
        TraverseAllSnoc(cs, i, np);
      }
      assert cs[..|cs|] == cs;
    }
  }

  /** Number of line breaks in a piece of output. */
  function LineBreaks(out: seq<string>): nat {
    if out == [] then 0 else LineBreaks(out[..|out| - 1]) + (if out[|out| - 1] == "\n" then 1 else 0)
  }

  lemma {:induction false} LineBreaksAppend(a: seq<string>, b: seq<string>)
    ensures LineBreaks(a + b) == LineBreaks(a) + LineBreaks(b)
  {
    if b != [] {
      assert (a + b)[..|a + b| - 1] == a + b[..|b| - 1];
      LineBreaksAppend(a, b[..|b| - 1]);
    } else {
      assert a + b == a;
    }
  }

  /** The noun-phrase nodes the walk reaches: those below the root through
      "S" and "NP" nodes only. */
  function PhrasesReached(t: Tree): nat
    decreases t
  {
    match t
    case Leaf(_, _) => 0
    case Node(l, cs) =>
      if SentenceLabel(l) then PhrasesReachedAll(cs)
      else if PhraseLabel(l) then 1 + PhrasesReachedAll(cs)
      else 0
  }

  function PhrasesReachedAll(cs: seq<Tree>): nat
    decreases cs
  {
    if cs == [] then 0 else PhrasesReached(cs[0]) + PhrasesReachedAll(cs[1..])
  }

  /** Every noun-phrase node reached ends exactly one line, and nothing else
      does: a printed token always ends in a space. */
  lemma {:induction false} OneLinePerPhrase(t: Tree, np: bool)
    ensures LineBreaks(Traverse(t, np)) == PhrasesReached(t)
    decreases t
  {
    match t
    case Leaf(tok, _) =>
      if np {
        assert [tok + " "] == [] + [tok + " "];
        assert (tok + " ")[|tok|] == ' ';
      }
    case Node(l, cs) =>
      if SentenceLabel(l) {
        OneLinePerPhraseAll(cs, false);
      } else if PhraseLabel(l) {
        OneLinePerPhraseAll(cs, true);
        LineBreaksAppend(TraverseAll(cs, true), ["\n"]);
        assert ["\n"] == [] + ["\n"];
      }
  }

  lemma {:induction false} OneLinePerPhraseAll(cs: seq<Tree>, np: bool)
    ensures LineBreaks(TraverseAll(cs, np)) == PhrasesReachedAll(cs)
    decreases cs
  {
    if cs != [] {
      OneLinePerPhrase(cs[0], np);
      OneLinePerPhraseAll(cs[1..], np);
      LineBreaksAppend(Traverse(cs[0], np), TraverseAll(cs[1..], np));
    }
  }

  /** The words the walk prints, defined without the flag: a noun-phrase
      node reached from the root gives the tokens of its leaf children,
      interleaved in child order with what its nested nodes give; a
      sentence node gives what its children give; a leaf on its own and any
      other node give nothing. */
  function PhraseWords(t: Tree): seq<string>
    decreases t
  {
    match t
    case Leaf(_, _) => []
    case Node(l, cs) =>
      if SentenceLabel(l) then PhraseWordsAll(cs)
      else if PhraseLabel(l) then PhraseChildWords(cs)
      else []
  }

  function PhraseWordsAll(cs: seq<Tree>): seq<string>
    decreases cs
  {
    if cs == [] then [] else PhraseWords(cs[0]) + PhraseWordsAll(cs[1..])
  }

  /** The children of a reached noun-phrase node: a leaf gives its token,
      a node what it gives on its own. */
  function PhraseChildWords(cs: seq<Tree>): seq<string>
    decreases cs
  {
    if cs == [] then []
    else (if cs[0].Leaf? then [cs[0].token] else PhraseWords(cs[0])) + PhraseChildWords(cs[1..])
  }

  /** The output without its line breaks. */
  function WithoutBreaks(out: seq<string>): seq<string> {
    if out == [] then [] else (if out[0] == "\n" then [] else [out[0]]) + WithoutBreaks(out[1..])
  }

  /** Each word followed by a space, as `print(w, end=" ")` writes it. */
  function Spaced(ws: seq<string>): seq<string> {
    if ws == [] then [] else [ws[0] + " "] + Spaced(ws[1..])
  }

  lemma {:induction false} WithoutBreaksAppend(a: seq<string>, b: seq<string>)
    ensures WithoutBreaks(a + b) == WithoutBreaks(a) + WithoutBreaks(b)
  {
    if a != [] {
      assert (a + b)[0] == a[0] && (a + b)[1..] == a[1..] + b;
      WithoutBreaksAppend(a[1..], b);
    } else {
      assert a + b == b;
    }
  }

  lemma {:induction false} SpacedAppend(a: seq<string>, b: seq<string>)
    ensures Spaced(a + b) == Spaced(a) + Spaced(b)
  {
    if a != [] {
      assert (a + b)[0] == a[0] && (a + b)[1..] == a[1..] + b;
      SpacedAppend(a[1..], b);
    } else {
      assert a + b == b;
    }
  }

  /** Walked from the root with the flag cleared, the output with its line
      breaks taken out is exactly the words of the reached noun phrases,
      each followed by a space, in the order of the tree. */
  lemma {:induction false} PrintsPhraseWords(t: Tree)
    ensures WithoutBreaks(Traverse(t, false)) == Spaced(PhraseWords(t))
    decreases t
  {
    match t
    case Leaf(_, _) =>
    case Node(l, cs) =>
      if SentenceLabel(l) {
        PrintsPhraseWordsAll(cs);
      } else if PhraseLabel(l) {
        PrintsPhraseChildWords(cs);
        WithoutBreaksAppend(TraverseAll(cs, true), ["\n"]);
        assert WithoutBreaks(["\n"]) == [] + WithoutBreaks([]);
        assert Spaced(PhraseChildWords(cs)) + [] == Spaced(PhraseChildWords(cs));
      }
  }

  /** Children walked with the flag cleared: only nested phrases print. */
  lemma {:induction false} PrintsPhraseWordsAll(cs: seq<Tree>)
    ensures WithoutBreaks(TraverseAll(cs, false)) == Spaced(PhraseWordsAll(cs))
    decreases cs
  {
    if cs != [] {
      PrintsPhraseWords(cs[0]);
      PrintsPhraseWordsAll(cs[1..]);
      WithoutBreaksAppend(Traverse(cs[0], false), TraverseAll(cs[1..], false));
      SpacedAppend(PhraseWords(cs[0]), PhraseWordsAll(cs[1..]));
    }
  }

  /** Children walked with the flag set: leaf children print their tokens,
      and a node child restarts the walk on its own label. */
  lemma {:induction false} PrintsPhraseChildWords(cs: seq<Tree>)
    ensures WithoutBreaks(TraverseAll(cs, true)) == Spaced(PhraseChildWords(cs))
    decreases cs
  {
    if cs != [] {
      var head := if cs[0].Leaf? then [cs[0].token] else PhraseWords(cs[0]);
      if cs[0].Leaf? {
        var w := cs[0].token + " ";
        assert w[|cs[0].token|] == ' ';
        assert WithoutBreaks([w]) == [w] + WithoutBreaks([]);
        assert Spaced(head) == [w] + Spaced([]);
      } else {
        assert Traverse(cs[0], true) == Traverse(cs[0], false);
        PrintsPhraseWords(cs[0]);
      }
      PrintsPhraseChildWords(cs[1..]);
      WithoutBreaksAppend(Traverse(cs[0], true), TraverseAll(cs[1..], true));
      SpacedAppend(head, PhraseChildWords(cs[1..]));
    }
  }

  /** True when no label in the tree mentions "NP". */
  predicate NoPhrases(t: Tree)
    decreases t
  {
    match t
    case Leaf(_, _) => true
    case Node(l, cs) => !Contains(l, "NP") && NoPhrasesAll(cs)
  }

  predicate NoPhrasesAll(cs: seq<Tree>)
    decreases cs
  {
    cs == [] || (NoPhrases(cs[0]) && NoPhrasesAll(cs[1..]))
  }

  /** A tree without noun-phrase chunks prints nothing from the root. */
  lemma {:induction false} NothingWithoutPhrases(t: Tree)
    requires NoPhrases(t)
    ensures Traverse(t, false) == []
    decreases t
  {
    match t
    case Leaf(_, _) =>
    case Node(l, cs) =>
      if SentenceLabel(l) {
        NothingWithoutPhrasesAll(cs);
      }
  }

  lemma {:induction false} NothingWithoutPhrasesAll(cs: seq<Tree>)
    requires NoPhrasesAll(cs)
    ensures TraverseAll(cs, false) == []
    decreases cs
  {
    if cs != [] {
      NothingWithoutPhrases(cs[0]);
      NothingWithoutPhrasesAll(cs[1..]);
    }
  }
}
