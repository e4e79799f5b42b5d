/** Character classes, whitespace stripping, decimal numerals, searching and
    substring tests shared by the claim-text rules.

    The regular-expression classes of the original are Unicode-aware; here
    `\s` is the ten ASCII whitespace characters and `\w` is the ASCII
    letters, the digits and the underscore. */
module Text {

  datatype Option<T> = None | Some(value: T)

  /** The ASCII characters that `\s` matches and `str.strip()` removes:
      tab, line feed, vertical tab, form feed, carriage return, the four
      separators U+001C to U+001F, and the space. */
  predicate IsSpace(c: char) {
    ('\t' <= c <= '\r') || ('\U{001C}' <= c <= '\U{001F}') || c == ' '
  }

  /** The ASCII part of `\d`. */
  predicate IsDigit(c: char) {
    '0' <= c <= '9'
  }

  /** The ASCII part of `\w`. */
  predicate IsWordChar(c: char) {
    ('a' <= c <= 'z') || ('A' <= c <= 'Z') || IsDigit(c) || c == '_'
  }

  predicate AllSpace(s: string) {
    forall k :: 0 <= k < |s| ==> IsSpace(s[k])
  }

  predicate AllDigits(s: string) {
    forall k :: 0 <= k < |s| ==> IsDigit(s[k])
  }

  /** End of the longest run of characters of class `cls` that starts at `i`:
      what a greedy `cls*` consumes from position `i`. */
  function RunEnd(s: string, i: nat, cls: char -> bool): (e: nat)
    requires i <= |s|
    ensures i <= e <= |s|
    ensures forall k :: i <= k < e ==> cls(s[k])
    ensures e < |s| ==> !cls(s[e])
    decreases |s| - i
  {
    if i == |s| || !cls(s[i]) then i else RunEnd(s, i + 1, cls)
  }

  /** A run of class `cls` from `i` that stops at `e` is the longest one. */
  lemma RunEndIs(s: string, i: nat, e: nat, cls: char -> bool)
    requires i <= e <= |s|
    requires forall k :: i <= k < e ==> cls(s[k])
    requires e < |s| ==> !cls(s[e])
    ensures RunEnd(s, i, cls) == e
  {
  }

  /** Start of the trailing whitespace of `s`. */
  function TrailStart(s: string): (b: nat)
    ensures b <= |s|
    ensures forall k :: b <= k < |s| ==> IsSpace(s[k])
    ensures b > 0 ==> !IsSpace(s[b - 1])
  {
    if s == [] || !IsSpace(s[|s| - 1]) then |s| else TrailStart(s[..|s| - 1])
  }

  /** Length of the leading whitespace of `s`. */
  function LeadEnd(s: string): (a: nat)
    ensures a <= |s| && AllSpace(s[..a])
    ensures a < |s| ==> !IsSpace(s[a])
  {
    var a := RunEnd(s, 0, IsSpace);
    assert AllSpace(s[..a]) by {
      forall k | 0 <= k < a ensures IsSpace(s[..a][k]) { assert s[..a][k] == s[k]; }
    }
    a
  }

  /** `str.strip()`: `s` without its leading and trailing whitespace. */
  function Strip(s: string): (r: string)
    ensures |r| <= |s|
    ensures r != [] ==> !IsSpace(r[0]) && !IsSpace(r[|r| - 1])
  {
    var a := LeadEnd(s);
    if a == |s| then [] else s[a..TrailStart(s)]
  }

  /** What `Strip` removes is whitespace at the two ends and nothing else. */
  lemma StripSlice(s: string)
    ensures exists a: nat, b: nat :: a <= b <= |s| && Strip(s) == s[a..b] && AllSpace(s[..a]) && AllSpace(s[b..])
  {
    var a := LeadEnd(s);
    if a == |s| {
      assert Strip(s) == s[a..a];
      assert AllSpace(s[a..]);
    } else {
      var b := TrailStart(s);
      assert !IsSpace(s[a]);
      assert a < b;
      assert AllSpace(s[b..]) by {
        forall k | 0 <= k < |s| - b ensures IsSpace(s[b..][k]) { assert s[b..][k] == s[b + k]; }
      }
    }
  }

  /** Stripping leaves a string alone exactly when it has no whitespace at
      either end. */
  lemma StripKeeps(s: string)
    ensures Strip(s) == s <==> (s == [] || (!IsSpace(s[0]) && !IsSpace(s[|s| - 1])))
  {
    if s != [] && !IsSpace(s[0]) && !IsSpace(s[|s| - 1]) {
      assert RunEnd(s, 0, IsSpace) == 0;
      assert LeadEnd(s) == 0;
      assert TrailStart(s) == |s|;
    }
  }

  lemma StripIdempotent(s: string)
    ensures Strip(Strip(s)) == Strip(s)
  {
    StripKeeps(Strip(s));
  }

  /** Value of one decimal digit. */
  function DigitValue(c: char): (v: nat)
    requires IsDigit(c)
    ensures v < 10
  {
    c as int - '0' as int
  }

  /** The digit character for `v < 10`. */
  function DigitChar(v: nat): (c: char)
    requires v < 10
    ensures IsDigit(c) && DigitValue(c) == v
  {
    ('0' as int + v) as char
  }

  /** `int(ds)` for a run of decimal digits (leading zeros allowed). */
  function DigitsValue(ds: string): nat
    requires AllDigits(ds)
  {
    if ds == [] then 0 else DigitsValue(ds[..|ds| - 1]) * 10 + DigitValue(ds[|ds| - 1])
  }

  /** `str(n)`: the decimal numeral of `n`, without leading zeros. */
  function NatToDigits(n: nat): (ds: string)
    ensures AllDigits(ds) && ds != []
    ensures n > 0 ==> ds[0] != '0'
  {
    if n < 10 then [DigitChar(n)] else NatToDigits(n / 10) + [DigitChar(n % 10)]
  }

  /** Reading back a printed number gives the number. */
  lemma {:induction false} DigitsRoundTrip(n: nat)
    ensures DigitsValue(NatToDigits(n)) == n
  {
    if n >= 10 {
      DigitsRoundTrip(n / 10);
      var ds := NatToDigits(n);
      assert ds[..|ds| - 1] == NatToDigits(n / 10);
    }
  }

  /** The least position `k` in `from..bound` with `p(k)`: a left-to-right
      search, as `re.search` tries its start positions. */
  function First(p: nat -> bool, from: nat, bound: nat): (r: Option<nat>)
    ensures r.Some? ==> from <= r.value < bound && p(r.value)
    ensures r.Some? ==> forall k :: from <= k < r.value ==> !p(k)
    ensures r.None? ==> forall k :: from <= k < bound ==> !p(k)
    decreases bound - from
  {
    if from >= bound then None else if p(from) then Some(from) else First(p, from + 1, bound)
  }

  predicate OccursAt(s: string, pat: string, i: nat) {
    i + |pat| <= |s| && s[i..i + |pat|] == pat
  }

  /** Python's `pat in s` on strings. */
  function Contains(s: string, pat: string): (b: bool)
    ensures b <==> exists i :: 0 <= i <= |s| && OccursAt(s, pat, i)
  {
    var p := (i: nat) => OccursAt(s, pat, i);
    var r := First(p, 0, |s| + 1);
    if r.Some? then
      assert OccursAt(s, pat, r.value);
      true
    else
      assert forall i :: 0 <= i <= |s| ==> !OccursAt(s, pat, i) by {
        forall i | 0 <= i <= |s| ensures !OccursAt(s, pat, i) { assert !p(i); }
      }
      false
  }
}
