/** The fixation-point split of the word on display (`getCurrentWord`): the
    characters before the pivot, the pivot character drawn in the highlight
    colour, and the characters after it. */
module Pivot {

  datatype Parts = Parts(before: string, middle: string, after: string)

  const NoParts := Parts("", "", "")

  /** `Math.ceil` on a real number. */
  function Ceil(x: real): int {
    -((-x).Floor)
  }

  /** The pivot is the character just left of centre: `before`, `middle` and
      `after` put back together give the word, the pivot is one character,
      and `after` is as long as `before` or one longer. Its index is
      `Math.ceil(length / 2) - 1`. An empty word gives three empty strings. */
  function Decompose(word: string): (p: Parts)
    ensures word == [] ==> p == NoParts
    ensures word != [] ==> p.before + p.middle + p.after == word
    ensures word != [] ==> |p.middle| == 1 && |p.before| <= |p.after| <= |p.before| + 1
    ensures word != [] ==> |p.before| == Ceil(|word| as real / 2.0) - 1
  {
    if word == [] then NoParts
    else
      var k := (|word| + 1) / 2 - 1;
      CeilHalf(|word|);
      assert word[..k] + [word[k]] + word[k + 1..] == word;
      Parts(word[..k], [word[k]], word[k + 1..])
  }

  lemma CeilHalf(n: nat)
    ensures Ceil(n as real / 2.0) == (n + 1) / 2
  {
  }

  /** The balance condition pins the pivot down: any split of a non-empty
      word into a prefix, one character and a suffix no shorter than the
      prefix and at most one longer is the one `Decompose` returns. */
  lemma DecomposeUnique(word: string, p: Parts)
    requires p.before + p.middle + p.after == word
    requires |p.middle| == 1 && |p.before| <= |p.after| <= |p.before| + 1
    ensures Decompose(word) == p
  {
  }

  /** `getCurrentWord`: the split of the word at `index`, or three empty
      strings when there is no word there or the word is empty (`!words[i]`
      holds for both `undefined` and `""`). */
  function CurrentWord(words: seq<string>, index: nat): (p: Parts)
    ensures index < |words| && words[index] != [] ==>
      p.before + p.middle + p.after == words[index] && |p.middle| == 1
    ensures index < |words| && words[index] != [] ==> p == Decompose(words[index])
    ensures index < |words| && words[index] != [] ==>
      |p.before| == Ceil(|words[index]| as real / 2.0) - 1
    ensures index >= |words| || words[index] == [] ==> p == NoParts
  {
    if index >= |words| || words[index] == [] then NoParts else Decompose(words[index])
  }
}
