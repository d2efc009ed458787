/** Where buffered rows come from: each row of the target buffer remembers the
    line of the files it was read at, and the source buffers hold the lines of
    the same number in each source file. These facts are what the iterator's
    invariants rest on; they are stated here on plain values. */
module Alignment {
  import opened Options
  import opened Text
  import opened Vocabulary
  import opened Streams
  import opened Encoding
  import opened Window
  import opened Assembly

  function FileLines(srcs: seq<Stream>): (r: seq<seq<string>>)
    ensures |r| == |srcs| && forall i :: 0 <= i < |srcs| ==> r[i] == srcs[i].lines
  {
    seq(|srcs|, i requires 0 <= i < |srcs| => srcs[i].lines)
  }

  /** `start, start + 1, ..., start + n - 1`: the line numbers one refill reads. */
  function Upward(start: nat, n: nat): (r: seq<nat>)
    ensures |r| == n && forall t :: 0 <= t < n ==> r[t] == start + t
  {
    seq(n, t requires 0 <= t < n => start + t)
  }

  predicate SortedByLength(tbuf: seq<Line>) {
    forall p, q :: 0 <= p < q < |tbuf| ==> |tbuf[p]| <= |tbuf[q]|
  }

  predicate Descending(s: seq<nat>) {
    forall p, q :: 0 <= p < q < |s| ==> s[p] > s[q]
  }

  /** The read cursors stand at the same line, unless some file is already
      read to its end (after which no refill reads a complete row). */
  predicate CursorsAgree(srcs: seq<Stream>, tgt: Stream) {
    (forall i :: 0 <= i < |srcs| ==> srcs[i].pos == tgt.pos) ||
    tgt.AtEnd() || exists i :: 0 <= i < |srcs| && srcs[i].AtEnd()
  }

  /** Buffers straight after a refill: row p of every buffer was read at line
      `org[p]`; sources may hold further rows after the target's. */
  predicate HeadAligned(sl: seq<seq<string>>, tl: seq<string>, sbufs: seq<seq<Line>>, tbuf: seq<Line>, org: seq<nat>) {
    |sbufs| == |sl| && |org| == |tbuf| && Covers(sbufs, tbuf) &&
    (forall p :: 0 <= p < |tbuf| ==> org[p] < |tl| && tbuf[p] == Tokens(tl[org[p]])) &&
    (forall i, p :: 0 <= i < |sl| && 0 <= p < |tbuf| ==> org[p] < |sl[i]| && sbufs[i][p] == Tokens(sl[i][org[p]]))
  }

  /** Buffers in pop order: target row p was read at line `org[p]`, and so was
      the entry of each source buffer aligned with it (counting from the tail). */
  predicate AlignedWith(sl: seq<seq<string>>, tl: seq<string>, sbufs: seq<seq<Line>>, tbuf: seq<Line>, org: seq<nat>) {
    |sbufs| == |sl| && |org| == |tbuf| && Covers(sbufs, tbuf) &&
    (forall p :: 0 <= p < |tbuf| ==> org[p] < |tl| && tbuf[p] == Tokens(tl[org[p]])) &&
    (forall i, p :: 0 <= i < |sl| && 0 <= p < |tbuf| ==>
      org[p] < |sl[i]| && SourceAt(sbufs, tbuf, i, p) == Tokens(sl[i][org[p]]))
  }

  /** Every line of every source file encodes with that source's factor
      dictionaries (no token has more factors than there are dictionaries). */
  predicate FilesEncode(dicts: seq<seq<Vocab>>, sl: seq<seq<string>>) {
    forall i, l :: 0 <= i < |sl| && 0 <= l < |sl[i]| ==> EncodeSource(Tokens(sl[i][l]), DictsFor(dicts, i)).Some?
  }

  predicate BuffersEncode(dicts: seq<seq<Vocab>>, sbufs: seq<seq<Line>>) {
    forall i, e :: 0 <= i < |sbufs| && e in sbufs[i] ==> EncodeSource(e, DictsFor(dicts, i)).Some?
  }

  /** The file line of each batch example, from the target-buffer positions it
      was popped from. */
  function LineNumbers(org: seq<nat>, rows: seq<nat>): (r: seq<nat>)
    ensures |r| == |rows| && forall j :: 0 <= j < |rows| && rows[j] < |org| ==> r[j] == org[rows[j]]
  {
    seq(|rows|, j requires 0 <= j < |rows| => if rows[j] < |org| then org[rows[j]] else 0)
  }

  // ---------------------------------------------------------------------------
  // Refill

  /** A refill from empty buffers reads rows that line up: when it reads any
      complete row, all cursors stood at the same line. */
  lemma FillHeadAligned(srcs: seq<Stream>, tgt: Stream, w: nat, srcs': seq<Stream>, tgt': Stream,
                        sbufs: seq<seq<Line>>, tbuf: seq<Line>)
    requires CursorsAgree(srcs, tgt)
    requires ReadInto(tgt, tgt', [], tbuf, FullRows(srcs, tgt, w))
    requires |sbufs| == |srcs'| == |srcs| &&
      forall i :: 0 <= i < |srcs| ==> ReadInto(srcs[i], srcs'[i], [], sbufs[i], Taken(srcs, tgt, w, i))
    ensures HeadAligned(FileLines(srcs), tgt.lines, sbufs, tbuf, Upward(tgt.pos, FullRows(srcs, tgt, w)))
  {
    var n := FullRows(srcs, tgt, w);
    var org := Upward(tgt.pos, n);
    var sl := FileLines(srcs);
    ReadAligned(tgt, tgt', tbuf, n, tgt.pos);
    if n > 0 {
      assert !tgt.AtEnd();
      assert forall i :: 0 <= i < |srcs| ==> !srcs[i].AtEnd();
      assert forall i :: 0 <= i < |srcs| ==> srcs[i].pos == tgt.pos;
    }
    forall i | 0 <= i < |srcs|
      ensures |sbufs[i]| >= n
      ensures forall p :: 0 <= p < n ==> org[p] < |sl[i]| && sbufs[i][p] == Tokens(sl[i][org[p]])
    {
      ReadAligned(srcs[i], srcs'[i], sbufs[i], n, tgt.pos);
    }
  }

  /** The first `n` rows a stream read from line `start` onwards, with their
      line numbers. */
  lemma ReadAligned(s: Stream, s': Stream, b: seq<Line>, n: nat, start: nat)
    requires exists c :: n <= c && ReadInto(s, s', [], b, c)
    requires n > 0 ==> s.pos == start
    ensures |b| >= n
    ensures forall p :: 0 <= p < n ==> Upward(start, n)[p] < |s.lines| && b[p] == Tokens(s.lines[Upward(start, n)[p]])
  {
    var c :| n <= c && ReadInto(s, s', [], b, c);
    assert b == TokenLines(s, c);
  }

  /** Sorting the freshly filled window keeps every row with its line number
      and leaves all buffers of the target's length. */
  lemma SortAligned(sl: seq<seq<string>>, tl: seq<string>, sbufs: seq<seq<Line>>, tbuf: seq<Line>, org: seq<nat>,
                    order: seq<nat>, sbufs': seq<seq<Line>>)
    requires HeadAligned(sl, tl, sbufs, tbuf, org)
    requires IsPermutation(order, |tbuf|)
    requires |sbufs'| == |sbufs| && forall i :: 0 <= i < |sbufs| ==> sbufs'[i] == Gather(sbufs[i], order)
    ensures AlignedWith(sl, tl, sbufs', Gather(tbuf, order), Gather(org, order))
    ensures Even(sbufs', Gather(tbuf, order))
  {
    var tb := Gather(tbuf, order);
    forall i, p | 0 <= i < |sl| && 0 <= p < |tb|
      ensures SourceAt(sbufs', tb, i, p) == Tokens(sl[i][Gather(org, order)[p]])
    {
      assert SourceAt(sbufs', tb, i, p) == sbufs[i][order[p]];
    }
  }

  /** Reversing the freshly filled window puts it in pop order with the
      earliest line at the tail; the source rows beyond the target's move to
      the head, out of the aligned part. */
  lemma ReverseAligned(sl: seq<seq<string>>, tl: seq<string>, sbufs: seq<seq<Line>>, tbuf: seq<Line>, start: nat,
                       sbufs': seq<seq<Line>>)
    requires HeadAligned(sl, tl, sbufs, tbuf, Upward(start, |tbuf|))
    requires |sbufs'| == |sbufs| && forall i :: 0 <= i < |sbufs| ==> sbufs'[i] == Reverse(sbufs[i])
    ensures AlignedWith(sl, tl, sbufs', Reverse(tbuf), Reverse(Upward(start, |tbuf|)))
    ensures Descending(Reverse(Upward(start, |tbuf|)))
  {
    var n := |tbuf|;
    var ro := Reverse(Upward(start, n));
    assert forall p :: 0 <= p < n ==> ro[p] == start + (n - 1 - p);
    ReverseTargetAligned(tl, tbuf, Upward(start, n));
    ReverseSourcesAligned(sl, sbufs, tbuf, Upward(start, n), sbufs');
  }

  lemma ReverseTargetAligned(tl: seq<string>, tbuf: seq<Line>, org: seq<nat>)
    requires |org| == |tbuf|
    requires forall p :: 0 <= p < |tbuf| ==> org[p] < |tl| && tbuf[p] == Tokens(tl[org[p]])
    ensures forall p :: 0 <= p < |tbuf| ==> Reverse(org)[p] < |tl| && Reverse(tbuf)[p] == Tokens(tl[Reverse(org)[p]])
  {
    var n := |tbuf|;
    forall p | 0 <= p < n
      ensures Reverse(org)[p] < |tl| && Reverse(tbuf)[p] == Tokens(tl[Reverse(org)[p]])
    {
      assert Reverse(tbuf)[p] == tbuf[n - 1 - p] && Reverse(org)[p] == org[n - 1 - p];
    }
  }

  lemma ReverseSourcesAligned(sl: seq<seq<string>>, sbufs: seq<seq<Line>>, tbuf: seq<Line>, org: seq<nat>,
                              sbufs': seq<seq<Line>>)
    requires |sbufs| == |sl| && |org| == |tbuf| && Covers(sbufs, tbuf)
    requires forall i, p :: 0 <= i < |sl| && 0 <= p < |tbuf| ==> org[p] < |sl[i]| && sbufs[i][p] == Tokens(sl[i][org[p]])
    requires |sbufs'| == |sbufs| && forall i :: 0 <= i < |sbufs| ==> sbufs'[i] == Reverse(sbufs[i])
    ensures Covers(sbufs', Reverse(tbuf))
    ensures forall i, p :: 0 <= i < |sl| && 0 <= p < |tbuf| ==>
      Reverse(org)[p] < |sl[i]| && SourceAt(sbufs', Reverse(tbuf), i, p) == Tokens(sl[i][Reverse(org)[p]])
  {
    var n := |tbuf|;
    var tb := Reverse(tbuf);
    forall i, p | 0 <= i < |sl| && 0 <= p < n
      ensures Reverse(org)[p] < |sl[i]| && SourceAt(sbufs', tb, i, p) == Tokens(sl[i][Reverse(org)[p]])
    {
      var c := |sbufs[i]|;
      assert SourceAt(sbufs', tb, i, p) == Reverse(sbufs[i])[p + c - n] == sbufs[i][n - 1 - p];
      assert Reverse(org)[p] == org[n - 1 - p];
    }
  }

  /** After a refill the cursors still agree: either every stream advanced by
      the same count, or the refill stopped short at a stream that is now at its
      end. */
  lemma FillKeepsCursors(srcs: seq<Stream>, tgt: Stream, w: nat, srcs': seq<Stream>, tgt': Stream)
    requires tgt.Valid() && forall i :: 0 <= i < |srcs| ==> srcs[i].Valid()
    requires CursorsAgree(srcs, tgt)
    requires tgt' == tgt.(pos := tgt.pos + FullRows(srcs, tgt, w))
    requires |srcs'| == |srcs| && forall i :: 0 <= i < |srcs| ==> srcs'[i] == srcs[i].(pos := srcs[i].pos + Taken(srcs, tgt, w, i))
    ensures CursorsAgree(srcs', tgt')
  {
    var n := FullRows(srcs, tgt, w);
    if n < w {
      ShortFillEndsAStream(srcs, tgt, w);
      if n != tgt.Remaining() {
        var i :| 0 <= i < |srcs| && Taken(srcs, tgt, w, i) == srcs[i].Remaining();
        assert srcs'[i].AtEnd();
      }
    } else if tgt.AtEnd() {
      assert tgt'.AtEnd();
    } else if exists i :: 0 <= i < |srcs| && srcs[i].AtEnd() {
      var i :| 0 <= i < |srcs| && srcs[i].AtEnd();
      assert srcs'[i].AtEnd();
    } else {
      assert forall i :: 0 <= i < |srcs| ==> !Extra(srcs, tgt, w, i);
    }
  }

  lemma TokenLinesEncode(dicts: seq<seq<Vocab>>, srcs: seq<Stream>, i: nat, c: nat)
    requires i < |srcs| && srcs[i].pos + c <= |srcs[i].lines|
    requires FilesEncode(dicts, FileLines(srcs))
    ensures forall e :: e in TokenLines(srcs[i], c) ==> EncodeSource(e, DictsFor(dicts, i)).Some?
  {
    forall e | e in TokenLines(srcs[i], c) ensures EncodeSource(e, DictsFor(dicts, i)).Some? {
      var t :| 0 <= t < c && TokenLines(srcs[i], c)[t] == e;
      assert FileLines(srcs)[i][srcs[i].pos + t] == srcs[i].lines[srcs[i].pos + t];
    }
  }

  lemma GatherSubset<T>(buf: seq<T>, idx: seq<nat>, e: T)
    requires forall p :: 0 <= p < |idx| ==> idx[p] < |buf|
    requires e in Gather(buf, idx)
    ensures e in buf
  {
    var p :| 0 <= p < |idx| && Gather(buf, idx)[p] == e;
    assert buf[idx[p]] == e;
  }

  lemma ReverseSubset<T>(buf: seq<T>, e: T)
    requires e in Reverse(buf)
    ensures e in buf
  {
    var p :| 0 <= p < |buf| && Reverse(buf)[p] == e;
    assert buf[|buf| - 1 - p] == e;
  }

  // ---------------------------------------------------------------------------
  // Assembly

  /** Unless a source token with too many factors broke the lock-step, what is
      left after assembly is still aligned, with the line numbers of the
      remaining target rows. */
  lemma AssembleAligned(st: Settings, fault: Fault, sl: seq<seq<string>>, tl: seq<string>,
                        sbufs: seq<seq<Line>>, tbuf: seq<Line>, org: seq<nat>)
    requires AlignedWith(sl, tl, sbufs, tbuf, org)
    ensures var a := Assemble(st, fault, sbufs, tbuf, [], [], [], 0);
      |a.tbuf| <= |tbuf| &&
      (a.stop != TooManyFactors ==> AlignedWith(sl, tl, a.sbufs, a.tbuf, org[..|a.tbuf|]))
  {
    var a := Assemble(st, fault, sbufs, tbuf, [], [], [], 0);
    AssembleGrows(st, fault, sbufs, tbuf, [], [], [], 0);
    AssembleCut(st, fault, sbufs, tbuf, [], [], [], 0);
    if a.stop in {BatchFull, ReadFailure} {
      CutAligned(sl, tl, sbufs, tbuf, org, |tbuf| - |a.tbuf|, a.sbufs, a.tbuf);
    } else if a.stop in {Drained, TargetUnderflow} {
      assert a.tbuf == [] && org[..0] == [];
    }
  }

  /** Popping the last `d` rows of every buffer keeps the rest aligned. */
  lemma CutAligned(sl: seq<seq<string>>, tl: seq<string>, sbufs: seq<seq<Line>>, tbuf: seq<Line>, org: seq<nat>,
                   d: nat, sbufs': seq<seq<Line>>, tbuf': seq<Line>)
    requires AlignedWith(sl, tl, sbufs, tbuf, org)
    requires d <= |tbuf| && tbuf' == tbuf[..|tbuf| - d]
    requires |sbufs'| == |sbufs| && forall i :: 0 <= i < |sbufs| ==> sbufs'[i] == sbufs[i][..|sbufs[i]| - d]
    ensures AlignedWith(sl, tl, sbufs', tbuf', org[..|tbuf'|])
  {
    var o := org[..|tbuf'|];
    forall p | 0 <= p < |tbuf'|
      ensures o[p] < |tl| && tbuf'[p] == Tokens(tl[o[p]])
    {
      assert tbuf'[p] == tbuf[p] && o[p] == org[p];
    }
    forall i, p | 0 <= i < |sl| && 0 <= p < |tbuf'|
      ensures o[p] < |sl[i]| && SourceAt(sbufs', tbuf', i, p) == Tokens(sl[i][o[p]])
    {
      assert SourceAt(sbufs', tbuf', i, p) == SourceAt(sbufs, tbuf, i, p);
      assert o[p] == org[p];
    }
  }

  /** Assembly keeps every buffered source entry encodable. */
  lemma AssembleKeepsEncoding(st: Settings, fault: Fault, sbufs: seq<seq<Line>>, tbuf: seq<Line>)
    requires BuffersEncode(st.sourceDicts, sbufs)
    ensures BuffersEncode(st.sourceDicts, Assemble(st, fault, sbufs, tbuf, [], [], [], 0).sbufs)
  {
    var a := Assemble(st, fault, sbufs, tbuf, [], [], [], 0);
    AssembleShrinks(st, fault, sbufs, tbuf, [], [], [], 0);
    forall i, e | 0 <= i < |a.sbufs| && e in a.sbufs[i]
      ensures EncodeSource(e, DictsFor(st.sourceDicts, i)).Some?
    {
      assert e in sbufs[i];
    }
  }

  /** What a batch holds: between one example and `batch_size` of them, each
      with one encoding per source, none too long, and target indices within
      `n_words_target` (or 1) when that is positive. */
  lemma BatchShape(st: Settings, fault: Fault, sbufs: seq<seq<Line>>, tbuf: seq<Line>)
    requires Covers(sbufs, tbuf)
    ensures var a := Assemble(st, fault, sbufs, tbuf, [], [], [], 0);
      |a.sources| == |a.target| <= BatchCap(st) &&
      (a.stop == BatchFull <==> |a.target| == BatchCap(st)) &&
      forall j :: 0 <= j < |a.target| ==>
        |a.sources[j]| == |sbufs| && !JointlyLong(a.sources[j], a.target[j], st.maxlen) &&
        (st.nWordsTarget > 0 ==> forall t :: 0 <= t < |a.target[j]| ==>
          a.target[j][t] < st.nWordsTarget || a.target[j][t] == Unknown)
  {
    var a := Assemble(st, fault, sbufs, tbuf, [], [], [], 0);
    AssembleGrows(st, fault, sbufs, tbuf, [], [], [], 0);
    AssembleShape(st, fault, sbufs, tbuf, [], [], [], 0);
    AssembleProvenance(st, fault, sbufs, tbuf, [], [], [], 0);
    AssembleKeeps(st, fault, sbufs, tbuf, [], [], [], 0);
    forall j | 0 <= j < |a.target|
      ensures |a.sources[j]| == |sbufs| && !JointlyLong(a.sources[j], a.target[j], st.maxlen)
    {
      assert a.rows[0..][j] == a.rows[j];
      assert Kept(st, sbufs, tbuf, a.rows[j]);
    }
  }

  /** Where each batch example comes from: the line numbers of the popped
      target rows, at which every source file holds the example's source lines;
      in the order of the files when the buffers were filled in reverse. */
  lemma BatchProvenance(st: Settings, fault: Fault, sl: seq<seq<string>>, tl: seq<string>,
                        sbufs: seq<seq<Line>>, tbuf: seq<Line>, org: seq<nat>)
    requires AlignedWith(sl, tl, sbufs, tbuf, org)
    ensures var a := Assemble(st, fault, sbufs, tbuf, [], [], [], 0);
      var lines := LineNumbers(org, a.rows);
      |lines| == |a.target| == |a.sources| &&
      (forall j :: 0 <= j < |a.target| ==>
        lines[j] < |tl| && a.target[j] == EncodeTarget(Tokens(tl[lines[j]]), st.targetDict, st.nWordsTarget) &&
        |a.sources[j]| == |sl| &&
        forall i :: 0 <= i < |sl| ==>
          lines[j] < |sl[i]| && EncodeSource(Tokens(sl[i][lines[j]]), DictsFor(st.sourceDicts, i)) == Some(a.sources[j][i])) &&
      (Descending(org) ==> forall j, j' :: 0 <= j < j' < |lines| ==> lines[j] < lines[j'])
  {
    var a := Assemble(st, fault, sbufs, tbuf, [], [], [], 0);
    var lines := LineNumbers(org, a.rows);
    AssembleGrows(st, fault, sbufs, tbuf, [], [], [], 0);
    AssembleProvenance(st, fault, sbufs, tbuf, [], [], [], 0);
    AssembleOrder(st, fault, sbufs, tbuf, [], [], [], 0);
    forall j | 0 <= j < |a.target|
      ensures |a.sources[j]| == |sl|
      ensures forall i :: 0 <= i < |sl| ==>
        lines[j] < |sl[i]| && EncodeSource(Tokens(sl[i][lines[j]]), DictsFor(st.sourceDicts, i)) == Some(a.sources[j][i])
    {
      var row := a.rows[j];
      var codes := RowCodes(st, sbufs, tbuf, row);
      assert codes == Some(a.sources[j]);
      forall i | 0 <= i < |sl|
        ensures lines[j] < |sl[i]| && EncodeSource(Tokens(sl[i][lines[j]]), DictsFor(st.sourceDicts, i)) == Some(a.sources[j][i])
      {
        assert SourceAt(sbufs, tbuf, i, row) == Tokens(sl[i][org[row]]);
        RowCodesEntry(st, sbufs, tbuf, row, i);
      }
    }
  }
}
