/** Vocabularies: token-to-index maps where index 0 stands for end of
    sequence and index 1 for an unknown token. */
module Vocabulary {

  type Vocab = map<string, nat>

  /** The index of a token that is not in the vocabulary. */
  const Unknown: nat := 1

  /** `d[w] if w in d else 1`: a probe that never fails and never inserts. */
  function Lookup(v: Vocab, w: string): (r: nat)
    ensures w in v ==> r == v[w]
    ensures w !in v ==> r == Unknown
  {
    if w in v then v[w] else Unknown
  }

  /** `r` is `d` with every entry whose index is at least `n` deleted. */
  ghost predicate TruncatedFrom(r: Vocab, d: Vocab, n: int) {
    (forall w :: w in r <==> w in d && d[w] < n) &&
    (forall w :: w in r ==> r[w] == d[w])
  }

  /** The deletion loop of the constructor: walks a snapshot of the entries and
      deletes each one whose index is `n` or more. */
  method DeleteFrom(d: Vocab, n: int) returns (r: Vocab)
    ensures TruncatedFrom(r, d, n)
    ensures forall w :: w in r ==> r[w] < n
  {
    r := d;
    var todo := d.Keys;
    while todo != {}
      invariant todo <= d.Keys
      invariant forall w :: w in r <==> w in d && (w in todo || d[w] < n)
      invariant forall w :: w in r ==> r[w] == d[w]
      decreases todo
    {
      var w :| w in todo;
      if d[w] >= n {
        r := r - {w};
      }
      todo := todo - {w};
    }
  }

  /** The target-side cap applied at encode time: with a positive cap, indices
      at or above it become the unknown index. */
  function Clamp(x: nat, cap: int): (r: nat)
    ensures cap > 0 ==> r < cap || r == Unknown
    ensures r == x || r == Unknown
    ensures r == x <==> cap <= 0 || x < cap || x == Unknown
  {
    if cap > 0 && x >= cap then Unknown else x
  }

  /** A token maps to the unknown index exactly when it is absent or stored
      with index 1 itself. */
  lemma LookupUnknown(v: Vocab, w: string)
    ensures Lookup(v, w) == Unknown <==> w !in v || v[w] == Unknown
  {
  }

  /** After truncation to a positive cap, a lookup is below the cap or
      unknown, so the later clamp changes nothing: truncation and clamping
      compose. */
  lemma {:induction false} ClampAfterTruncation(r: Vocab, d: Vocab, n: int, w: string)
    requires n > 0
    requires TruncatedFrom(r, d, n)
    ensures Lookup(r, w) < n || Lookup(r, w) == Unknown
    ensures Clamp(Lookup(r, w), n) == Lookup(r, w)
    ensures Lookup(r, w) == (if w in d && d[w] < n then d[w] else Unknown)
  {
    if w in r {
      assert w in d && d[w] < n;
    }
  }
}
