/** Turning the token lists of one example into vocabulary indices, and the
    joint length filter. */
module Encoding {
  import opened Options
  import opened Text
  import opened Vocabulary

  /** A line after tokenisation. */
  type Line = seq<string>

  /** An encoded source line: per token, one index per factor. */
  type SourceCode = seq<seq<nat>>

  /** The character that separates the factors of a source token. */
  const FactorDelimiter: char := '|'

  /** The factors of a token: exactly `Split(w, FactorDelimiter)`, named for
      the factor count fact that comes with it. */
  function Factors(w: string): (fs: seq<string>)
    ensures |fs| == Occurrences(w, FactorDelimiter) + 1
  {
    SplitCount(w, FactorDelimiter);
    Split(w, FactorDelimiter)
  }

  /** The factor dictionaries of source stream `k`; a stream without an entry
      in `sourceDicts` has none, so any token of it is out of range. */
  function DictsFor(sourceDicts: seq<seq<Vocab>>, k: nat): seq<Vocab> {
    if k < |sourceDicts| then sourceDicts[k] else []
  }

  /** One source token: factor `i` is looked up in dictionary `i`; a token with
      more factors than dictionaries raises IndexError, here `None`. */
  function EncodeToken(w: string, dicts: seq<Vocab>): (r: Option<seq<nat>>)
    ensures r.None? <==> |Factors(w)| > |dicts|
    ensures r.Some? ==> |r.value| == |Factors(w)|
    ensures r.Some? ==> forall i :: 0 <= i < |r.value| ==>
      (Factors(w)[i] in dicts[i] ==> r.value[i] == dicts[i][Factors(w)[i]]) &&
      (Factors(w)[i] !in dicts[i] ==> r.value[i] == Unknown)
  {
    var fs := Factors(w);
    if |fs| > |dicts| then None
    else Some(seq(|fs|, i requires 0 <= i < |fs| => Lookup(dicts[i], fs[i])))
  }

  /** A source line, token by token; it fails exactly when one of its tokens
      has too many factors, and then no index of it is kept. */
  function EncodeSource(line: Line, dicts: seq<Vocab>): (r: Option<SourceCode>)
    ensures r.Some? ==> |r.value| == |line|
  {
    if line == [] then Some([])
    else
      match EncodeToken(line[0], dicts)
      case None => None
      case Some(t) =>
        match EncodeSource(line[1..], dicts)
        case None => None
        case Some(rest) => Some([t] + rest)
  }

  /** The encoding of a source line is exactly that of its tokens: it exists
      precisely when every token encodes, and then holds their encodings in
      order. */
  lemma {:induction false} EncodeSourceTokens(line: Line, dicts: seq<Vocab>)
    ensures EncodeSource(line, dicts).Some? <==> forall j :: 0 <= j < |line| ==> EncodeToken(line[j], dicts).Some?
    ensures EncodeSource(line, dicts).Some? ==>
      forall j :: 0 <= j < |line| ==> EncodeSource(line, dicts).value[j] == EncodeToken(line[j], dicts).value
  {
    if line != [] {
      EncodeSourceTokens(line[1..], dicts);
      assert forall j :: 1 <= j < |line| ==> line[1..][j - 1] == line[j];
    }
  }

  /** A target line: plain lookup, then the clamp to `nWords` when it is
      positive. */
  function EncodeTarget(line: Line, v: Vocab, nWords: int): seq<nat>
  {
    seq(|line|, j requires 0 <= j < |line| => Clamp(Lookup(v, line[j]), nWords))
  }

  /** With a positive cap every target index is below the cap or is the
      unknown index. The first two clauses only unfold the definition, token
      by token, for the proofs that use it. */
  lemma EncodeTargetTokens(line: Line, v: Vocab, nWords: int)
    ensures |EncodeTarget(line, v, nWords)| == |line|
    ensures forall j :: 0 <= j < |line| ==> EncodeTarget(line, v, nWords)[j] == Clamp(Lookup(v, line[j]), nWords)
    ensures nWords > 0 ==> forall j :: 0 <= j < |line| ==>
      EncodeTarget(line, v, nWords)[j] < nWords || EncodeTarget(line, v, nWords)[j] == Unknown
  {
  }

  /** A target index is unknown exactly when the token is absent, is stored
      with the unknown index, or (with a positive cap) is stored at or above
      the cap. */
  lemma {:induction false} TargetUnknown(line: Line, v: Vocab, nWords: int, j: nat)
    requires j < |line|
    ensures EncodeTarget(line, v, nWords)[j] == Unknown <==>
      line[j] !in v || v[line[j]] == Unknown || (nWords > 0 && v[line[j]] >= nWords)
  {
    var w := line[j];
    assert EncodeTarget(line, v, nWords)[j] == Clamp(Lookup(v, w), nWords);
    LookupUnknown(v, w);
  }

  /** The filter of the assembly loop: an example is dropped only when every
      source encoding and the target encoding are all longer than `maxlen`. */
  predicate JointlyLong(sources: seq<SourceCode>, target: seq<nat>, maxlen: int) {
    (forall i :: 0 <= i < |sources| ==> |sources[i]| > maxlen) && |target| > maxlen
  }

  /** Worked example: with target vocabulary {a: 2, b: 3}, the line "a c" is
      encoded as [2, 1]. */
  lemma UnknownTargetExample()
    ensures EncodeTarget(Tokens("a c"), map["a" := 2, "b" := 3], -1) == [2, 1]
  {
    assert Word("a c") == "a";
    assert Tokens("a c") == ["a"] + Tokens(" c");
    assert Word("c") == "c";
    assert Tokens(" c") == Tokens("c") == ["c"];
  }
}
