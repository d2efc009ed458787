/** The look-ahead window: how one refill reads aligned lines from the streams,
    and how the filled window is put in pop order (sorted by target length, or
    reversed). */
module Window {
  import opened Text
  import opened Streams
  import opened Encoding

  // ---------------------------------------------------------------------------
  // Refill

  /** `xrange(k)` runs this many times: none when `k` is not positive. */
  function WindowSize(k: int): (w: nat)
    ensures k > 0 ==> w == k
    ensures k <= 0 ==> w == 0
  {
    if k > 0 then k else 0
  }

  function Min(a: nat, b: nat): nat {
    if a <= b then a else b
  }

  /** The number of complete rows (every source line and the target line) one
      refill reads: the window size, unless some stream runs out first. */
  function FullRows(srcs: seq<Stream>, tgt: Stream, w: nat): (n: nat)
    ensures n <= w && n <= tgt.Remaining()
    ensures forall i :: 0 <= i < |srcs| ==> n <= srcs[i].Remaining()
    ensures n == w || n == tgt.Remaining() || exists i :: 0 <= i < |srcs| && n == srcs[i].Remaining()
    decreases |srcs|
  {
    if srcs == [] then Min(w, tgt.Remaining())
    else Min(srcs[0].Remaining(), FullRows(srcs[1..], tgt, w))
  }

  /** Any count that fits every bound and meets one of them is `FullRows`. */
  lemma FullRowsIs(srcs: seq<Stream>, tgt: Stream, w: nat, c: nat)
    requires c <= w && c <= tgt.Remaining()
    requires forall i :: 0 <= i < |srcs| ==> c <= srcs[i].Remaining()
    requires c == w || c == tgt.Remaining() || exists i :: 0 <= i < |srcs| && c == srcs[i].Remaining()
    ensures FullRows(srcs, tgt, w) == c
  {
  }

  /** Whether the refill also reads a line of source `i` in the iteration that
      breaks: the window was cut short, and source `i` and every source before
      it still had a line, so they were appended before the stream that ran
      out was reached. */
  predicate Extra(srcs: seq<Stream>, tgt: Stream, w: nat, i: nat) {
    var n := FullRows(srcs, tgt, w);
    n < w && forall j :: 0 <= j <= i && j < |srcs| ==> srcs[j].Remaining() > n
  }

  /** The number of lines one refill takes from source `i`. */
  function Taken(srcs: seq<Stream>, tgt: Stream, w: nat, i: nat): (c: nat)
    requires i < |srcs|
    ensures c <= w && c <= srcs[i].Remaining()
    ensures FullRows(srcs, tgt, w) <= c <= FullRows(srcs, tgt, w) + 1
  {
    FullRows(srcs, tgt, w) + if Extra(srcs, tgt, w, i) then 1 else 0
  }

  /** The token lists of the next `c` lines of `s`. */
  function TokenLines(s: Stream, c: nat): (r: seq<Line>)
    requires s.pos + c <= |s.lines|
    ensures |r| == c
    ensures forall t :: 0 <= t < c ==> r[t] == Tokens(s.lines[s.pos + t])
  {
    seq(c, t requires 0 <= t < c => Tokens(s.lines[s.pos + t]))
  }

  lemma TokenLinesNext(s: Stream, c: nat)
    requires s.pos + c < |s.lines|
    ensures TokenLines(s, c + 1) == TokenLines(s, c) + [Tokens(s.lines[s.pos + c])]
  {
  }

  /** Stream `s'` is `s` after `c` more lines were read, and buffer `b'` is
      `b` with their token lists appended. */
  predicate ReadInto(s: Stream, s': Stream, b: seq<Line>, b': seq<Line>, c: nat) {
    s.pos + c <= |s.lines| && s' == s.(pos := s.pos + c) && b' == b + TokenLines(s, c)
  }

  lemma ReadOneMore(s: Stream, s': Stream, b: seq<Line>, b': seq<Line>, c: nat)
    requires s.Valid() && ReadInto(s, s', b, b', c) && !s'.AtEnd()
    ensures ReadInto(s, ReadLine(s').1, b, b' + [Tokens(ReadLine(s').0)], c + 1)
  {
    TokenLinesNext(s, c);
  }

  /** One refill (the `for k_ in xrange(self.k)` loop): each iteration reads a
      line from every source in order and then from the target, and the
      refill ends at the first "" from any of them, so earlier sources may
      keep one line more than the target. */
  method FillWindow(srcs: seq<Stream>, tgt: Stream, sbufs: seq<seq<Line>>, tbuf: seq<Line>, w: nat)
    returns (srcs': seq<Stream>, tgt': Stream, sbufs': seq<seq<Line>>, tbuf': seq<Line>)
    requires |sbufs| == |srcs|
    requires tgt.Valid() && forall i :: 0 <= i < |srcs| ==> srcs[i].Valid()
    ensures |srcs'| == |srcs| && |sbufs'| == |sbufs|
    ensures ReadInto(tgt, tgt', tbuf, tbuf', FullRows(srcs, tgt, w))
    ensures forall i :: 0 <= i < |srcs| ==> ReadInto(srcs[i], srcs'[i], sbufs[i], sbufs'[i], Taken(srcs, tgt, w, i))
  {
    srcs', tgt', sbufs', tbuf' := srcs, tgt, sbufs, tbuf;
    var c := 0;
    while c < w
      invariant c <= w
      invariant |srcs'| == |srcs| && |sbufs'| == |sbufs|
      invariant ReadInto(tgt, tgt', tbuf, tbuf', c)
      invariant forall i :: 0 <= i < |srcs| ==> ReadInto(srcs[i], srcs'[i], sbufs[i], sbufs'[i], c)
    {
      var stopped;
      ghost var at;
      srcs', sbufs', stopped, at := ReadRow(srcs, sbufs, srcs', sbufs', c);
      if stopped {
        // source `at` is at its end: the refill stops with c complete rows
        FinishedAtSource(srcs, tgt, w, c, at, srcs', tgt', sbufs, sbufs', tbuf, tbuf');
        return;
      }
      var (tt, t') := ReadLine(tgt');
      if tt == "" {
        // every source gave a line but the target is at its end
        FinishedAtTarget(srcs, tgt, w, c, srcs', tgt', sbufs, sbufs', tbuf, tbuf');
        return;
      }
      ReadOneMore(tgt, tgt', tbuf, tbuf', c);
      tgt' := t';
      tbuf' := tbuf' + [Tokens(tt)];
      c := c + 1;
    }
    FinishedAtWindow(srcs, tgt, w, srcs', tgt', sbufs, sbufs', tbuf, tbuf');
  }

  /** The inner `for` over the sources: one more line from each source in
      order, stopping at the first source that is at its end. */
  method ReadRow(srcs: seq<Stream>, sbufs: seq<seq<Line>>, cur: seq<Stream>, bufs: seq<seq<Line>>, c: nat)
    returns (cur': seq<Stream>, bufs': seq<seq<Line>>, stopped: bool, ghost at: nat)
    requires |cur| == |srcs| && |bufs| == |sbufs| == |srcs|
    requires forall j :: 0 <= j < |srcs| ==> srcs[j].Valid() && ReadInto(srcs[j], cur[j], sbufs[j], bufs[j], c)
    ensures |cur'| == |srcs| && |bufs'| == |sbufs|
    ensures !stopped ==> forall j :: 0 <= j < |srcs| ==> ReadInto(srcs[j], cur'[j], sbufs[j], bufs'[j], c + 1)
    ensures stopped ==> at < |srcs| && srcs[at].Remaining() == c
    ensures stopped ==> forall j :: 0 <= j < at ==> ReadInto(srcs[j], cur'[j], sbufs[j], bufs'[j], c + 1)
    ensures stopped ==> forall j :: at <= j < |srcs| ==> ReadInto(srcs[j], cur'[j], sbufs[j], bufs'[j], c)
  {
    cur', bufs', stopped, at := cur, bufs, false, 0;
    var i := 0;
    while i < |srcs|
      invariant i <= |srcs| && |cur'| == |srcs| && |bufs'| == |sbufs|
      invariant forall j :: 0 <= j < i ==> ReadInto(srcs[j], cur'[j], sbufs[j], bufs'[j], c + 1)
      invariant forall j :: i <= j < |srcs| ==> ReadInto(srcs[j], cur'[j], sbufs[j], bufs'[j], c)
    {
      var (ss, s') := ReadLine(cur'[i]);
      if ss == "" {
        stopped, at := true, i;
        return;
      }
      ReadOneMore(srcs[i], cur'[i], sbufs[i], bufs'[i], c);
      cur' := cur'[i := s'];
      bufs' := bufs'[i := bufs'[i] + [Tokens(ss)]];
      i := i + 1;
    }
  }

  /** The refill met the end of source `i` in row `c`: the sources before it
      gave one line more than the rest. */
  lemma FinishedAtSource(srcs: seq<Stream>, tgt: Stream, w: nat, c: nat, i: nat,
                         srcs': seq<Stream>, tgt': Stream, sbufs: seq<seq<Line>>, sbufs': seq<seq<Line>>,
                         tbuf: seq<Line>, tbuf': seq<Line>)
    requires |srcs'| == |srcs| && |sbufs'| == |sbufs| == |srcs|
    requires i < |srcs| && c < w && ReadInto(tgt, tgt', tbuf, tbuf', c)
    requires srcs[i].Remaining() == c
    requires forall j :: 0 <= j < i ==> ReadInto(srcs[j], srcs'[j], sbufs[j], sbufs'[j], c + 1)
    requires forall j :: i <= j < |srcs| ==> ReadInto(srcs[j], srcs'[j], sbufs[j], sbufs'[j], c)
    ensures ReadInto(tgt, tgt', tbuf, tbuf', FullRows(srcs, tgt, w))
    ensures forall j :: 0 <= j < |srcs| ==> ReadInto(srcs[j], srcs'[j], sbufs[j], sbufs'[j], Taken(srcs, tgt, w, j))
  {
    assert forall j :: 0 <= j < i ==> c < srcs[j].Remaining();
    assert forall j :: 0 <= j < |srcs| ==> c <= srcs[j].Remaining();
    SourceEndTaken(srcs, tgt, w, c, i);
  }

  lemma SourceEndTaken(srcs: seq<Stream>, tgt: Stream, w: nat, c: nat, i: nat)
    requires i < |srcs| && c < w && c <= tgt.Remaining()
    requires forall j :: 0 <= j < |srcs| ==> c <= srcs[j].Remaining()
    requires forall j :: 0 <= j < i ==> c < srcs[j].Remaining()
    requires srcs[i].Remaining() == c
    ensures FullRows(srcs, tgt, w) == c
    ensures forall j :: 0 <= j < i ==> Taken(srcs, tgt, w, j) == c + 1
    ensures forall j :: i <= j < |srcs| ==> Taken(srcs, tgt, w, j) == c
  {
    FullRowsIs(srcs, tgt, w, c);
    assert forall j :: i <= j < |srcs| ==> !Extra(srcs, tgt, w, j);
  }

  /** Every source gave a line in row `c` but the target was at its end. */
  lemma FinishedAtTarget(srcs: seq<Stream>, tgt: Stream, w: nat, c: nat,
                         srcs': seq<Stream>, tgt': Stream, sbufs: seq<seq<Line>>, sbufs': seq<seq<Line>>,
                         tbuf: seq<Line>, tbuf': seq<Line>)
    requires |srcs'| == |srcs| && |sbufs'| == |sbufs| == |srcs|
    requires c < w && ReadInto(tgt, tgt', tbuf, tbuf', c) && tgt.Remaining() == c
    requires forall j :: 0 <= j < |srcs| ==> ReadInto(srcs[j], srcs'[j], sbufs[j], sbufs'[j], c + 1)
    ensures ReadInto(tgt, tgt', tbuf, tbuf', FullRows(srcs, tgt, w))
    ensures forall j :: 0 <= j < |srcs| ==> ReadInto(srcs[j], srcs'[j], sbufs[j], sbufs'[j], Taken(srcs, tgt, w, j))
  {
    assert forall j :: 0 <= j < |srcs| ==> c < srcs[j].Remaining();
    FullRowsIs(srcs, tgt, w, c);
    assert forall j :: 0 <= j < |srcs| ==> Taken(srcs, tgt, w, j) == c + 1;
  }

  /** All `w` rows were read. */
  lemma FinishedAtWindow(srcs: seq<Stream>, tgt: Stream, w: nat,
                         srcs': seq<Stream>, tgt': Stream, sbufs: seq<seq<Line>>, sbufs': seq<seq<Line>>,
                         tbuf: seq<Line>, tbuf': seq<Line>)
    requires |srcs'| == |srcs| && |sbufs'| == |sbufs| == |srcs|
    requires ReadInto(tgt, tgt', tbuf, tbuf', w)
    requires forall j :: 0 <= j < |srcs| ==> ReadInto(srcs[j], srcs'[j], sbufs[j], sbufs'[j], w)
    ensures ReadInto(tgt, tgt', tbuf, tbuf', FullRows(srcs, tgt, w))
    ensures forall j :: 0 <= j < |srcs| ==> ReadInto(srcs[j], srcs'[j], sbufs[j], sbufs'[j], Taken(srcs, tgt, w, j))
  {
    assert forall j :: 0 <= j < |srcs| ==> w <= srcs[j].Remaining();
    FullRowsIs(srcs, tgt, w, w);
    assert forall j :: 0 <= j < |srcs| ==> Taken(srcs, tgt, w, j) == w;
  }

  /** When every stream has the same number of lines left, one refill takes the
      same number of lines from each, so all buffers grow alike. */
  lemma {:induction false} EvenStreamsFillEvenly(srcs: seq<Stream>, tgt: Stream, w: nat, i: nat)
    requires i < |srcs|
    requires forall j :: 0 <= j < |srcs| ==> srcs[j].Remaining() == tgt.Remaining()
    ensures Taken(srcs, tgt, w, i) == FullRows(srcs, tgt, w) == Min(w, tgt.Remaining())
  {
    FullRowsIs(srcs, tgt, w, Min(w, tgt.Remaining()));
    assert !Extra(srcs, tgt, w, i) by {
      if FullRows(srcs, tgt, w) < w {
        assert srcs[0].Remaining() == FullRows(srcs, tgt, w);
      }
    }
  }

  /** A refill that reads fewer than `w` rows leaves some stream at its end:
      the target, or a source that gave no further line. */
  lemma {:induction false} ShortFillEndsAStream(srcs: seq<Stream>, tgt: Stream, w: nat)
    requires FullRows(srcs, tgt, w) < w
    ensures FullRows(srcs, tgt, w) == tgt.Remaining() ||
            exists i :: 0 <= i < |srcs| && Taken(srcs, tgt, w, i) == srcs[i].Remaining()
  {
    var n := FullRows(srcs, tgt, w);
    if n != tgt.Remaining() {
      var i :| 0 <= i < |srcs| && n == srcs[i].Remaining();
      assert !Extra(srcs, tgt, w, i);
      assert Taken(srcs, tgt, w, i) == srcs[i].Remaining();
    }
  }

  // ---------------------------------------------------------------------------
  // Pop order

  /** `idx` lists each of 0 .. n-1 exactly once. */
  predicate IsPermutation(idx: seq<nat>, n: nat) {
    |idx| == n &&
    (forall p :: 0 <= p < n ==> idx[p] < n) &&
    (forall p, q :: 0 <= p < q < n ==> idx[p] != idx[q]) &&
    (forall v :: 0 <= v < n ==> v in idx)
  }

  /** `idx` is a permutation of 0 .. |idx|-1 ordered by non-decreasing `lens`. */
  predicate SortedIndices(idx: seq<nat>, lens: seq<nat>) {
    IsPermutation(idx, |idx|) && |idx| <= |lens| &&
    forall p, q :: 0 <= p < q < |idx| ==> lens[idx[p]] <= lens[idx[q]]
  }

  /** Inserting index t = |idx| just before the first entry with a larger
      length keeps the indices sorted. */
  lemma InsertSorted(idx: seq<nat>, lens: seq<nat>, at: nat)
    requires SortedIndices(idx, lens) && |idx| < |lens|
    requires at <= |idx|
    requires forall p :: 0 <= p < at ==> lens[idx[p]] <= lens[|idx|]
    requires at < |idx| ==> lens[idx[at]] > lens[|idx|]
    ensures SortedIndices(idx[..at] + [|idx|] + idx[at..], lens)
  {
    InsertPermutes(idx, at);
    InsertOrdered(idx, lens, at);
  }

  lemma InsertPermutes(idx: seq<nat>, at: nat)
    requires IsPermutation(idx, |idx|) && at <= |idx|
    ensures IsPermutation(idx[..at] + [|idx|] + idx[at..], |idx| + 1)
  {
    var t := |idx|;
    var r := idx[..at] + [t] + idx[at..];
    assert forall p :: 0 <= p < at ==> r[p] == idx[p];
    assert r[at] == t;
    assert forall p :: at < p <= t ==> r[p] == idx[p - 1];
    forall v | 0 <= v < t + 1 ensures v in r {
      if v == t {
        assert r[at] == v;
      } else {
        assert v in idx;
        var p :| 0 <= p < t && idx[p] == v;
        if p < at { assert r[p] == v; } else { assert r[p + 1] == v; }
      }
    }
    forall p, q | 0 <= p < q < t + 1 ensures r[p] != r[q] {
      if p == at {
        assert r[q] == idx[q - 1] < t;
      } else if q == at {
        assert r[p] == idx[p] < t;
      } else {
        var a := if p < at then p else p - 1;
        var b := if q < at then q else q - 1;
        assert a < b && r[p] == idx[a] && r[q] == idx[b];
      }
    }
  }

  lemma InsertOrdered(idx: seq<nat>, lens: seq<nat>, at: nat)
    requires SortedIndices(idx, lens) && |idx| < |lens|
    requires at <= |idx|
    requires forall p :: 0 <= p < at ==> lens[idx[p]] <= lens[|idx|]
    requires at < |idx| ==> lens[idx[at]] > lens[|idx|]
    ensures forall p, q :: 0 <= p < q < |idx| + 1 ==>
      lens[(idx[..at] + [|idx|] + idx[at..])[p]] <= lens[(idx[..at] + [|idx|] + idx[at..])[q]]
  {
    var t := |idx|;
    var r := idx[..at] + [t] + idx[at..];
    forall p, q | 0 <= p < q < t + 1 ensures lens[r[p]] <= lens[r[q]] {
      if q == at {
        assert r[p] == idx[p];
      } else if p == at {
        assert r[q] == idx[q - 1];
        assert lens[idx[at]] <= lens[idx[q - 1]] || at == q - 1;
      } else {
        var a := if p < at then p else p - 1;
        var b := if q < at then q else q - 1;
        assert a < b && r[p] == idx[a] && r[q] == idx[b];
      }
    }
  }

  /** `numpy.argsort` restricted to what it promises: the indices of `lens` in
      an order of non-decreasing value. Nothing is said of how ties are broken. */
  method ArgSort(lens: seq<nat>) returns (idx: seq<nat>)
    ensures IsPermutation(idx, |lens|)
    ensures forall p, q :: 0 <= p < q < |idx| ==> lens[idx[p]] <= lens[idx[q]]
  {
    idx := [];
    while |idx| < |lens|
      invariant SortedIndices(idx, lens)
      decreases |lens| - |idx|
    {
      var at := 0;
      while at < |idx| && lens[idx[at]] <= lens[|idx|]
        invariant at <= |idx|
        invariant forall p :: 0 <= p < at ==> lens[idx[p]] <= lens[|idx|]
      {
        at := at + 1;
      }
      InsertSorted(idx, lens, at);
      idx := idx[..at] + [|idx|] + idx[at..];
    }
  }

  /** `[buf[i] for i in idx]`. */
  function Gather<T>(buf: seq<T>, idx: seq<nat>): (r: seq<T>)
    requires forall p :: 0 <= p < |idx| ==> idx[p] < |buf|
    ensures |r| == |idx| && forall p :: 0 <= p < |idx| ==> r[p] == buf[idx[p]]
  {
    seq(|idx|, p requires 0 <= p < |idx| => buf[idx[p]])
  }

  /** Taking out the entry n-1 of a permutation of 0 .. n-1 leaves a
      permutation of 0 .. n-2. */
  lemma RemoveLast(idx: seq<nat>, n: nat, q: nat)
    requires n >= 1 && IsPermutation(idx, n) && q < n && idx[q] == n - 1
    ensures IsPermutation(idx[..q] + idx[q + 1..], n - 1)
  {
    var rest := idx[..q] + idx[q + 1..];
    assert forall p :: 0 <= p < q ==> rest[p] == idx[p];
    assert forall p :: q <= p < n - 1 ==> rest[p] == idx[p + 1];
    assert forall p :: 0 <= p < n - 1 ==> rest[p] < n - 1 by {
      forall p | 0 <= p < n - 1 ensures rest[p] < n - 1 {
        if p < q { assert idx[p] != idx[q]; } else { assert idx[p + 1] != idx[q]; }
      }
    }
    assert forall v :: 0 <= v < n - 1 ==> v in rest by {
      forall v | 0 <= v < n - 1 ensures v in rest {
        assert v in idx;
        var p :| 0 <= p < n && idx[p] == v;
        if p < q { assert rest[p] == v; } else { assert p != q; assert rest[p - 1] == v; }
      }
    }
    assert forall p, p' :: 0 <= p < p' < n - 1 ==> rest[p] != rest[p'] by {
      forall p, p' | 0 <= p < p' < n - 1 ensures rest[p] != rest[p'] {
        var a := if p < q then p else p + 1;
        var b := if p' < q then p' else p' + 1;
        assert a < b && rest[p] == idx[a] && rest[p'] == idx[b];
      }
    }
  }

  lemma GatherConcat<T>(buf: seq<T>, a: seq<nat>, b: seq<nat>)
    requires forall p :: 0 <= p < |a| ==> a[p] < |buf|
    requires forall p :: 0 <= p < |b| ==> b[p] < |buf|
    ensures Gather(buf, a + b) == Gather(buf, a) + Gather(buf, b)
  {
  }

  /** Splitting an index sequence around position q splits what it gathers. */
  lemma GatherAround<T>(buf: seq<T>, idx: seq<nat>, q: nat)
    requires q < |idx| && forall p :: 0 <= p < |idx| ==> idx[p] < |buf|
    ensures Gather(buf, idx) == Gather(buf, idx[..q]) + [buf[idx[q]]] + Gather(buf, idx[q + 1..])
    ensures Gather(buf, idx[..q] + idx[q + 1..]) == Gather(buf, idx[..q]) + Gather(buf, idx[q + 1..])
  {
  }

  lemma MovedLast<T>(g: seq<T>, ga: seq<T>, gb: seq<T>, front: seq<T>, buf: seq<T>)
    requires buf != [] && buf == front + [buf[|buf| - 1]]
    requires g == ga + [buf[|buf| - 1]] + gb && multiset(ga + gb) == multiset(front)
    ensures multiset(g) == multiset(buf)
  {
  }

  /** Gathering by a permutation rearranges and neither drops nor repeats. */
  lemma {:induction false} GatherPermutes<T>(buf: seq<T>, idx: seq<nat>)
    requires IsPermutation(idx, |buf|)
    ensures multiset(Gather(buf, idx)) == multiset(buf)
    decreases |buf|
  {
    if buf != [] {
      var q := PositionOfLast(idx, |buf|);
      var rest := idx[..q] + idx[q + 1..];
      RemoveLast(idx, |buf|, q);
      GatherPermutes(buf[..|buf| - 1], rest);
      GatherStep(buf, idx, q);
    }
  }

  /** Where a permutation of 0 .. n-1 holds n-1. */
  lemma PositionOfLast(idx: seq<nat>, n: nat) returns (q: nat)
    requires n >= 1 && IsPermutation(idx, n)
    ensures q < |idx| && idx[q] == n - 1
  {
    assert n - 1 in idx;
    q :| 0 <= q < |idx| && idx[q] == n - 1;
  }

  /** Putting the last entry back where the permutation takes it. */
  lemma GatherStep<T>(buf: seq<T>, idx: seq<nat>, q: nat)
    requires buf != [] && IsPermutation(idx, |buf|) && q < |idx| && idx[q] == |buf| - 1
    requires IsPermutation(idx[..q] + idx[q + 1..], |buf| - 1)
    requires multiset(Gather(buf[..|buf| - 1], idx[..q] + idx[q + 1..])) == multiset(buf[..|buf| - 1])
    ensures multiset(Gather(buf, idx)) == multiset(buf)
  {
    var n := |buf| - 1;
    var rest := idx[..q] + idx[q + 1..];
    var front := buf[..n];
    GatherAround(buf, idx, q);
    var ga, gb := Gather(buf, idx[..q]), Gather(buf, idx[q + 1..]);
    assert Gather(front, rest) == Gather(buf, rest);
    assert buf == front + [buf[n]];
    MovedLast(Gather(buf, idx), ga, gb, front, buf);
  }

  /** The window ordered by target length (lines 107-116): one argsort of the
      target lengths, applied alike to the target buffer and every source
      buffer; source entries beyond the target's length are not selected. */
  method SortWindow(sbufs: seq<seq<Line>>, tbuf: seq<Line>)
    returns (sbufs': seq<seq<Line>>, tbuf': seq<Line>, ghost order: seq<nat>)
    requires forall i :: 0 <= i < |sbufs| ==> |sbufs[i]| >= |tbuf|
    ensures IsPermutation(order, |tbuf|)
    ensures tbuf' == Gather(tbuf, order)
    ensures |sbufs'| == |sbufs| && forall i :: 0 <= i < |sbufs| ==> sbufs'[i] == Gather(sbufs[i], order)
    ensures forall p, q :: 0 <= p < q < |tbuf'| ==> |tbuf'[p]| <= |tbuf'[q]|
    ensures multiset(tbuf') == multiset(tbuf)
  {
    var lens := seq(|tbuf|, p requires 0 <= p < |tbuf| => |tbuf[p]|);
    var tidx := ArgSort(lens);
    order := tidx;
    sbufs' := [];
    var i := 0;
    while i < |sbufs|
      invariant i <= |sbufs| && |sbufs'| == i
      invariant forall j :: 0 <= j < i ==> sbufs'[j] == Gather(sbufs[j], tidx)
    {
      sbufs' := sbufs' + [Gather(sbufs[i], tidx)];
      i := i + 1;
    }
    tbuf' := Gather(tbuf, tidx);
    GatherPermutes(tbuf, tidx);
  }

  /** `list.reverse()`. */
  function Reverse<T>(s: seq<T>): (r: seq<T>)
    ensures |r| == |s| && forall p :: 0 <= p < |s| ==> r[p] == s[|s| - 1 - p]
  {
    seq(|s|, p requires 0 <= p < |s| => s[|s| - 1 - p])
  }

  /** The window reversed in place (lines 118-121), so that popping from the
      tail yields the lines in file order. */
  method ReverseWindow(sbufs: seq<seq<Line>>, tbuf: seq<Line>) returns (sbufs': seq<seq<Line>>, tbuf': seq<Line>)
    ensures tbuf' == Reverse(tbuf)
    ensures |sbufs'| == |sbufs| && forall i :: 0 <= i < |sbufs| ==> sbufs'[i] == Reverse(sbufs[i])
  {
    sbufs' := sbufs;
    var i := 0;
    while i < |sbufs|
      invariant i <= |sbufs| && |sbufs'| == |sbufs|
      invariant forall j :: 0 <= j < i ==> sbufs'[j] == Reverse(sbufs[j])
      invariant forall j :: i <= j < |sbufs| ==> sbufs'[j] == sbufs[j]
    {
      sbufs' := sbufs'[i := Reverse(sbufs'[i])];
      i := i + 1;
    }
    tbuf' := Reverse(tbuf);
  }
}
