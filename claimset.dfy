/** Pairing the sentences of a claim set into claims: a claim comes out of
    the sentence splitter as its number and then its text, so sentences are
    joined two at a time. */
module Claimset {

  /** `" ".join(xs)`. */
  function JoinSpace(xs: seq<string>): string {
    if xs == [] then "" else if |xs| == 1 then xs[0] else xs[0] + " " + JoinSpace(xs[1..])
  }

  /** `sents[i:i+2]`: the slice is cut short at the end of the list. */
  function PairAt(sents: seq<string>, i: nat): (pair: seq<string>)
    requires i < |sents|
    ensures |pair| == (if i + 1 < |sents| then 2 else 1)
    ensures pair[0] == sents[i] && (|pair| == 2 ==> pair[1] == sents[i + 1])
  {
    if i + 2 <= |sents| then sents[i..i + 2] else sents[i..]
  }

  /** `Claimset.extract_claims` on the sentence list: the slices starting
      at 0, 2, 4, ... each joined with spaces. */
  function ExtractClaims(sents: seq<string>): seq<string> {
    seq((|sents| + 1) / 2, k requires 0 <= k < (|sents| + 1) / 2 => JoinSpace(PairAt(sents, 2 * k)))
  }

  /** One claim per two sentences, rounding up; claim k is sentence 2k
      joined to sentence 2k + 1, and an unpaired last sentence is a claim
      of its own. */
  lemma ExtractClaimsPairs(sents: seq<string>)
    ensures |ExtractClaims(sents)| == (|sents| + 1) / 2
    ensures forall k :: 0 <= k < |ExtractClaims(sents)| ==>
      ExtractClaims(sents)[k] == if 2 * k + 1 < |sents| then sents[2 * k] + " " + sents[2 * k + 1] else sents[2 * k]
  {
    var claims := ExtractClaims(sents);
    forall k | 0 <= k < |claims|
      ensures claims[k] == if 2 * k + 1 < |sents| then sents[2 * k] + " " + sents[2 * k + 1] else sents[2 * k]
    {
      assert claims[k] == JoinSpace(PairAt(sents, 2 * k));
      if 2 * k + 1 < |sents| {
        var pair := [sents[2 * k], sents[2 * k + 1]];
        assert PairAt(sents, 2 * k) == pair;
        assert pair[1..] == [sents[2 * k + 1]];
      } else {
        assert PairAt(sents, 2 * k) == [sents[2 * k]];
      }
    }
  }

  /** The first pair, then the pairs of the rest. */
  lemma ExtractClaimsCons(sents: seq<string>)
    requires |sents| >= 2
    ensures ExtractClaims(sents) == [sents[0] + " " + sents[1]] + ExtractClaims(sents[2..])
  {
    ExtractClaimsPairs(sents);
    ExtractClaimsPairs(sents[2..]);
    var a, b := ExtractClaims(sents), [sents[0] + " " + sents[1]] + ExtractClaims(sents[2..]);
    assert |a| == |b|;
    forall k | 0 <= k < |a| ensures a[k] == b[k] {
      if k > 0 {
        assert b[k] == ExtractClaims(sents[2..])[k - 1];
        assert sents[2..][2 * (k - 1)] == sents[2 * k];
        if 2 * k + 1 < |sents| {
          assert sents[2..][2 * (k - 1) + 1] == sents[2 * k + 1];
        }
      }
    }
  }

  /** Joining the claims with spaces gives the sentences joined with
      spaces: no sentence is lost, not even an unpaired last one. */
  lemma {:induction false} ExtractClaimsKeepsText(sents: seq<string>)
    ensures JoinSpace(ExtractClaims(sents)) == JoinSpace(sents)
    decreases |sents|
  {
    if |sents| >= 2 {
      ExtractClaimsCons(sents);
      ExtractClaimsKeepsText(sents[2..]);
      var rest := ExtractClaims(sents[2..]);
      var pair := sents[0] + " " + sents[1];
      assert ([pair] + rest)[1..] == rest;
      assert sents[1..][1..] == sents[2..];
      if |sents| == 2 {
        assert rest == [];
      } else {
        assert rest != [];
        assert JoinSpace([pair] + rest) == pair + " " + JoinSpace(rest);
        assert JoinSpace(sents[1..]) == sents[1] + " " + JoinSpace(sents[2..]);
      }
    }
  }
}
