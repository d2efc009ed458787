/** The bitext iterator: parallel source files and a target file read in
    windows of `batch_size * maxibatch_size` lines, each window put in pop
    order, and batches of encoded examples handed out until the files are
    exhausted, when the streams are rewound for the next epoch. */
module DataIterator {
  import opened Options
  import opened Text
  import opened Vocabulary
  import opened Streams
  import opened Encoding
  import opened Window
  import opened Assembly
  import opened Alignment

  /** The exceptions `next` lets escape, apart from the end of an epoch. */
  datatype Crash =
    | BufferSizeMismatch  // the assertion that all buffers have the target's length
    | NoSourceStreams     // `self.source_buffers[0]` with no source file: IndexError
    | TargetBufferEmpty   // `self.target_buffer.pop()` on an empty list: IndexError

  /** What one call of `next` gives: a batch, the end of the epoch
      (StopIteration), or an escaping exception. */
  datatype Outcome =
    | Batch(sources: seq<seq<SourceCode>>, target: seq<seq<nat>>)
    | EndOfEpoch
    | Crashed(reason: Crash)

  /** The vocabulary cut of the constructor for the source side: every factor
      dictionary of source `i` loses the entries at or above
      `n_words_source[i]` when that is positive; sources without a count keep
      their dictionaries. */
  method TruncateSourceDicts(dicts: seq<seq<Vocab>>, nWords: seq<int>) returns (r: seq<seq<Vocab>>)
    requires forall i :: |dicts| <= i < |nWords| ==> nWords[i] <= 0
    ensures |r| == |dicts|
    ensures forall i :: 0 <= i < |dicts| ==> |r[i]| == |dicts[i]|
    ensures forall i, f :: 0 <= i < |dicts| && 0 <= f < |dicts[i]| ==>
      if i < |nWords| && nWords[i] > 0 then TruncatedFrom(r[i][f], dicts[i][f], nWords[i]) else r[i][f] == dicts[i][f]
  {
    r := dicts;
    var i := 0;
    while i < |nWords|
      invariant i <= |nWords| && |r| == |dicts|
      invariant forall j :: 0 <= j < |dicts| ==> |r[j]| == |dicts[j]|
      invariant forall j, f :: 0 <= j < |dicts| && 0 <= f < |dicts[j]| ==>
        if j < i && nWords[j] > 0 then TruncatedFrom(r[j][f], dicts[j][f], nWords[j]) else r[j][f] == dicts[j][f]
    {
      if nWords[i] > 0 {
        var ds := r[i];
        var f := 0;
        while f < |ds|
          invariant f <= |ds| == |dicts[i]|
          invariant forall g :: 0 <= g < f ==> TruncatedFrom(ds[g], dicts[i][g], nWords[i])
          invariant forall g :: f <= g < |ds| ==> ds[g] == dicts[i][g]
        {
          var d := DeleteFrom(ds[f], nWords[i]);
          ds := ds[f := d];
          f := f + 1;
        }
        r := r[i := ds];
      }
      i := i + 1;
    }
  }

  // ---------------------------------------------------------------------------
  // The iterator's invariants, on the values of its fields

  /** Streams within their files whose cursors agree; with files of one
      length the cursors stand at the same line. */
  ghost predicate StreamsOk(srcs: seq<Stream>, tgt: Stream) {
    tgt.Valid() && (forall i :: 0 <= i < |srcs| ==> srcs[i].Valid()) &&
    CursorsAgree(srcs, tgt) &&
    (ParallelFiles(srcs, tgt) ==> forall i :: 0 <= i < |srcs| ==> srcs[i].pos == tgt.pos)
  }

  /** One buffer per source and one line number per target row, sound
      streams, and, when the window is sorted, a target buffer in order of
      length. */
  ghost predicate Consistent(srcs: seq<Stream>, tgt: Stream, sbufs: seq<seq<Line>>, tbuf: seq<Line>,
                             org: seq<nat>, sort: bool) {
    |sbufs| == |srcs| && |org| == |tbuf| && StreamsOk(srcs, tgt) && (sort ==> SortedByLength(tbuf))
  }

  /** Every source file has as many lines as the target file. */
  predicate ParallelFiles(srcs: seq<Stream>, tgt: Stream) {
    forall i :: 0 <= i < |srcs| ==> |srcs[i].lines| == |tgt.lines|
  }

  /** The buffers hold file lines at the line numbers of `org`, and in
      reverse-fill mode those numbers fall towards the head. */
  ghost predicate InOrder(sl: seq<seq<string>>, tl: seq<string>, sbufs: seq<seq<Line>>, tbuf: seq<Line>,
                          org: seq<nat>, sort: bool) {
    AlignedWith(sl, tl, sbufs, tbuf, org) && (!sort ==> Descending(org))
  }

  /** After a refill into empty buffers: the streams advanced as the fill
      read, and the data `ReadInto` describes. */
  ghost predicate Filled(srcs: seq<Stream>, tgt: Stream, w: nat, srcs': seq<Stream>, tgt': Stream,
                         sbufs: seq<seq<Line>>, tbuf: seq<Line>) {
    |srcs'| == |srcs| && |sbufs| == |srcs| &&
    ReadInto(tgt, tgt', [], tbuf, FullRows(srcs, tgt, w)) &&
    forall i :: 0 <= i < |srcs| ==> ReadInto(srcs[i], srcs'[i], [], sbufs[i], Taken(srcs, tgt, w, i))
  }

  /** What the fill part of a refill establishes, whichever order follows. */
  lemma FillFacts(dicts: seq<seq<Vocab>>, srcs: seq<Stream>, tgt: Stream, w: nat, srcs': seq<Stream>, tgt': Stream,
                  sbufs: seq<seq<Line>>, tbuf: seq<Line>, org: seq<nat>)
    requires StreamsOk(srcs, tgt)
    requires Filled(srcs, tgt, w, srcs', tgt', sbufs, tbuf)
    requires org == Upward(tgt.pos, FullRows(srcs, tgt, w))
    ensures HeadAligned(FileLines(srcs), tgt.lines, sbufs, tbuf, org)
    ensures StreamsOk(srcs', tgt')
    ensures FileLines(srcs') == FileLines(srcs) && tgt'.lines == tgt.lines
    ensures ParallelFiles(srcs, tgt) ==> Even(sbufs, tbuf)
    ensures FilesEncode(dicts, FileLines(srcs)) ==> BuffersEncode(dicts, sbufs)
  {
    FillHeadAligned(srcs, tgt, w, srcs', tgt', sbufs, tbuf);
    FillStreams(srcs, tgt, w, srcs', tgt', sbufs, tbuf);
    FillEven(srcs, tgt, w, srcs', tgt', sbufs, tbuf);
    FillEncodes(dicts, srcs, tgt, w, srcs', tgt', sbufs, tbuf);
  }

  /** A fill moves the cursors in step and leaves the files alone. */
  lemma FillStreams(srcs: seq<Stream>, tgt: Stream, w: nat, srcs': seq<Stream>, tgt': Stream,
                    sbufs: seq<seq<Line>>, tbuf: seq<Line>)
    requires StreamsOk(srcs, tgt)
    requires Filled(srcs, tgt, w, srcs', tgt', sbufs, tbuf)
    ensures StreamsOk(srcs', tgt')
    ensures FileLines(srcs') == FileLines(srcs) && tgt'.lines == tgt.lines
  {
    FillKeepsCursors(srcs, tgt, w, srcs', tgt');
    assert FileLines(srcs') == FileLines(srcs);
  }

  /** Files of one length fill every buffer alike. */
  lemma FillEven(srcs: seq<Stream>, tgt: Stream, w: nat, srcs': seq<Stream>, tgt': Stream,
                 sbufs: seq<seq<Line>>, tbuf: seq<Line>)
    requires StreamsOk(srcs, tgt)
    requires Filled(srcs, tgt, w, srcs', tgt', sbufs, tbuf)
    ensures ParallelFiles(srcs, tgt) ==> Even(sbufs, tbuf)
  {
    if ParallelFiles(srcs, tgt) {
      forall i | 0 <= i < |srcs| ensures Taken(srcs, tgt, w, i) == FullRows(srcs, tgt, w) {
        EvenStreamsFillEvenly(srcs, tgt, w, i);
      }
    }
  }

  /** A fill reads only lines of the files, so when those all encode, so does
      every buffered source entry. */
  lemma FillEncodes(dicts: seq<seq<Vocab>>, srcs: seq<Stream>, tgt: Stream, w: nat, srcs': seq<Stream>, tgt': Stream,
                    sbufs: seq<seq<Line>>, tbuf: seq<Line>)
    requires StreamsOk(srcs, tgt)
    requires Filled(srcs, tgt, w, srcs', tgt', sbufs, tbuf)
    ensures FilesEncode(dicts, FileLines(srcs)) ==> BuffersEncode(dicts, sbufs)
  {
    if FilesEncode(dicts, FileLines(srcs)) {
      forall i | 0 <= i < |srcs|
        ensures forall e :: e in sbufs[i] ==> EncodeSource(e, DictsFor(dicts, i)).Some?
      {
        TokenLinesEncode(dicts, srcs, i, Taken(srcs, tgt, w, i));
      }
    }
  }

  /** Sorting a freshly filled window: aligned, even, sorted, and no
      source entry that was not read. */
  lemma SortFacts(dicts: seq<seq<Vocab>>, sl: seq<seq<string>>, tl: seq<string>, sbufs: seq<seq<Line>>, tbuf: seq<Line>,
                  org: seq<nat>, order: seq<nat>, sbufs': seq<seq<Line>>)
    requires HeadAligned(sl, tl, sbufs, tbuf, org)
    requires IsPermutation(order, |tbuf|)
    requires |sbufs'| == |sbufs| && forall i :: 0 <= i < |sbufs| ==> sbufs'[i] == Gather(sbufs[i], order)
    ensures AlignedWith(sl, tl, sbufs', Gather(tbuf, order), Gather(org, order))
    ensures Even(sbufs', Gather(tbuf, order))
    ensures BuffersEncode(dicts, sbufs) ==> BuffersEncode(dicts, sbufs')
  {
    SortAligned(sl, tl, sbufs, tbuf, org, order, sbufs');
    if BuffersEncode(dicts, sbufs) {
      forall i, e | 0 <= i < |sbufs'| && e in sbufs'[i]
        ensures EncodeSource(e, DictsFor(dicts, i)).Some?
      {
        GatherSubset(sbufs[i], order, e);
      }
    }
  }

  /** Reversing a freshly filled window: aligned with falling line numbers,
      even when the fill was, and no source entry that was not read. */
  lemma ReverseFacts(dicts: seq<seq<Vocab>>, sl: seq<seq<string>>, tl: seq<string>, sbufs: seq<seq<Line>>, tbuf: seq<Line>,
                     start: nat, sbufs': seq<seq<Line>>)
    requires HeadAligned(sl, tl, sbufs, tbuf, Upward(start, |tbuf|))
    requires |sbufs'| == |sbufs| && forall i :: 0 <= i < |sbufs| ==> sbufs'[i] == Reverse(sbufs[i])
    ensures AlignedWith(sl, tl, sbufs', Reverse(tbuf), Reverse(Upward(start, |tbuf|)))
    ensures Descending(Reverse(Upward(start, |tbuf|)))
    ensures Even(sbufs, tbuf) ==> Even(sbufs', Reverse(tbuf))
    ensures BuffersEncode(dicts, sbufs) ==> BuffersEncode(dicts, sbufs')
  {
    ReverseAligned(sl, tl, sbufs, tbuf, start, sbufs');
    if BuffersEncode(dicts, sbufs) {
      forall i, e | 0 <= i < |sbufs'| && e in sbufs'[i]
        ensures EncodeSource(e, DictsFor(dicts, i)).Some?
      {
        ReverseSubset(sbufs[i], e);
      }
    }
  }

  /** The whole of a refill that ends in a sort, on values. */
  lemma SortedRefill(dicts: seq<seq<Vocab>>, srcs: seq<Stream>, tgt: Stream, w: nat, srcs': seq<Stream>, tgt': Stream,
                     read: seq<seq<Line>>, readTarget: seq<Line>, order: seq<nat>, sbufs: seq<seq<Line>>, tbuf: seq<Line>)
    requires StreamsOk(srcs, tgt)
    requires Filled(srcs, tgt, w, srcs', tgt', read, readTarget)
    requires IsPermutation(order, |readTarget|) && tbuf == Gather(readTarget, order) && SortedByLength(tbuf)
    requires |sbufs| == |read| && forall i :: 0 <= i < |read| ==> sbufs[i] == Gather(read[i], order)
    ensures var org := Gather(Upward(tgt.pos, |readTarget|), order);
      Consistent(srcs', tgt', sbufs, tbuf, org, true) && InOrder(FileLines(srcs'), tgt'.lines, sbufs, tbuf, org, true) &&
      Even(sbufs, tbuf)
    ensures FileLines(srcs') == FileLines(srcs) && tgt'.lines == tgt.lines
    ensures FilesEncode(dicts, FileLines(srcs')) ==> BuffersEncode(dicts, sbufs)
  {
    var org := Upward(tgt.pos, |readTarget|);
    FillFacts(dicts, srcs, tgt, w, srcs', tgt', read, readTarget, org);
    SortFacts(dicts, FileLines(srcs), tgt.lines, read, readTarget, org, order, sbufs);
  }

  /** The whole of a refill that ends in a reversal, on values. */
  lemma ReversedRefill(dicts: seq<seq<Vocab>>, srcs: seq<Stream>, tgt: Stream, w: nat, srcs': seq<Stream>, tgt': Stream,
                       read: seq<seq<Line>>, readTarget: seq<Line>, sbufs: seq<seq<Line>>, tbuf: seq<Line>)
    requires StreamsOk(srcs, tgt)
    requires Filled(srcs, tgt, w, srcs', tgt', read, readTarget)
    requires tbuf == Reverse(readTarget)
    requires |sbufs| == |read| && forall i :: 0 <= i < |read| ==> sbufs[i] == Reverse(read[i])
    ensures var org := Reverse(Upward(tgt.pos, |readTarget|));
      Consistent(srcs', tgt', sbufs, tbuf, org, false) && InOrder(FileLines(srcs'), tgt'.lines, sbufs, tbuf, org, false)
    ensures FileLines(srcs') == FileLines(srcs) && tgt'.lines == tgt.lines
    ensures ParallelFiles(srcs', tgt') ==> Even(sbufs, tbuf)
    ensures FilesEncode(dicts, FileLines(srcs')) ==> BuffersEncode(dicts, sbufs)
  {
    var org := Upward(tgt.pos, |readTarget|);
    FillFacts(dicts, srcs, tgt, w, srcs', tgt', read, readTarget, org);
    ReverseFacts(dicts, FileLines(srcs), tgt.lines, read, readTarget, tgt.pos, sbufs);
  }

  /** A refill in sort mode, on the fields' values: the fill loop into the
      empty buffers, then every buffer re-indexed by one permutation that
      puts the target rows in order of length. `org` holds the line number
      of each row. */
  method SortedWindow(dicts: seq<seq<Vocab>>, srcs: seq<Stream>, tgt: Stream, sbufs: seq<seq<Line>>, tbuf: seq<Line>, w: nat)
    returns (srcs': seq<Stream>, tgt': Stream, sbufs': seq<seq<Line>>, tbuf': seq<Line>,
             ghost org: seq<nat>, ghost read: seq<seq<Line>>, ghost readTarget: seq<Line>, ghost order: seq<nat>)
    requires StreamsOk(srcs, tgt)
    requires |sbufs| == |srcs| && tbuf == [] && forall i :: 0 <= i < |sbufs| ==> sbufs[i] == []
    ensures Filled(srcs, tgt, w, srcs', tgt', read, readTarget)
    ensures Covers(sbufs', tbuf') && tgt' == tgt.(pos := tgt.pos + FullRows(srcs, tgt, w))
    ensures IsPermutation(order, |readTarget|) && tbuf' == Gather(readTarget, order)
    ensures |sbufs'| == |srcs| && forall i :: 0 <= i < |srcs| ==> sbufs'[i] == Gather(read[i], order)
    ensures Consistent(srcs', tgt', sbufs', tbuf', org, true) && InOrder(FileLines(srcs'), tgt'.lines, sbufs', tbuf', org, true)
    ensures Even(sbufs', tbuf')
    ensures FileLines(srcs') == FileLines(srcs) && tgt'.lines == tgt.lines
    ensures FilesEncode(dicts, FileLines(srcs')) ==> BuffersEncode(dicts, sbufs')
  {
    var rs, rt;
    srcs', tgt', rs, rt := FillWindow(srcs, tgt, sbufs, tbuf, w);
    ghost var o;
    sbufs', tbuf', o := SortWindow(rs, rt);
    SortedRefill(dicts, srcs, tgt, w, srcs', tgt', rs, rt, o, sbufs', tbuf');
    read, readTarget, order := rs, rt, o;
    org := Gather(Upward(tgt.pos, |rt|), o);
  }

  /** A refill in reverse mode, on the fields' values: the fill loop into
      the empty buffers, then every buffer reversed. */
  method ReversedWindow(dicts: seq<seq<Vocab>>, srcs: seq<Stream>, tgt: Stream, sbufs: seq<seq<Line>>, tbuf: seq<Line>, w: nat)
    returns (srcs': seq<Stream>, tgt': Stream, sbufs': seq<seq<Line>>, tbuf': seq<Line>,
             ghost org: seq<nat>, ghost read: seq<seq<Line>>, ghost readTarget: seq<Line>)
    requires StreamsOk(srcs, tgt)
    requires |sbufs| == |srcs| && tbuf == [] && forall i :: 0 <= i < |sbufs| ==> sbufs[i] == []
    ensures Filled(srcs, tgt, w, srcs', tgt', read, readTarget)
    ensures Covers(sbufs', tbuf') && tgt' == tgt.(pos := tgt.pos + FullRows(srcs, tgt, w))
    ensures tbuf' == Reverse(readTarget)
    ensures |sbufs'| == |srcs| && forall i :: 0 <= i < |srcs| ==> sbufs'[i] == Reverse(read[i])
    ensures Consistent(srcs', tgt', sbufs', tbuf', org, false) && InOrder(FileLines(srcs'), tgt'.lines, sbufs', tbuf', org, false)
    ensures ParallelFiles(srcs', tgt') ==> Even(sbufs', tbuf')
    ensures FileLines(srcs') == FileLines(srcs) && tgt'.lines == tgt.lines
    ensures FilesEncode(dicts, FileLines(srcs')) ==> BuffersEncode(dicts, sbufs')
  {
    var rs, rt;
    srcs', tgt', rs, rt := FillWindow(srcs, tgt, sbufs, tbuf, w);
    sbufs', tbuf' := ReverseWindow(rs, rt);
    ReversedRefill(dicts, srcs, tgt, w, srcs', tgt', rs, rt, sbufs', tbuf');
    read, readTarget := rs, rt;
    org := Reverse(Upward(tgt.pos, |rt|));
  }

  /** A refill on the fields' values, in either mode. */
  method RefillWindow(dicts: seq<seq<Vocab>>, sort: bool, srcs: seq<Stream>, tgt: Stream, sbufs: seq<seq<Line>>, tbuf: seq<Line>, w: nat)
    returns (srcs': seq<Stream>, tgt': Stream, sbufs': seq<seq<Line>>, tbuf': seq<Line>,
             ghost org: seq<nat>, ghost read: seq<seq<Line>>, ghost readTarget: seq<Line>, ghost order: seq<nat>)
    requires StreamsOk(srcs, tgt)
    requires |sbufs| == |srcs| && tbuf == [] && forall i :: 0 <= i < |sbufs| ==> sbufs[i] == []
    ensures Consistent(srcs', tgt', sbufs', tbuf', org, sort) && InOrder(FileLines(srcs'), tgt'.lines, sbufs', tbuf', org, sort)
    ensures FileLines(srcs') == FileLines(srcs) && tgt'.lines == tgt.lines
    ensures Filled(srcs, tgt, w, srcs', tgt', read, readTarget)
    ensures Covers(sbufs', tbuf') && tgt' == tgt.(pos := tgt.pos + FullRows(srcs, tgt, w))
    ensures sort ==>
      IsPermutation(order, |readTarget|) && tbuf' == Gather(readTarget, order) &&
      forall i :: 0 <= i < |srcs'| ==> sbufs'[i] == Gather(read[i], order)
    ensures !sort ==>
      tbuf' == Reverse(readTarget) && forall i :: 0 <= i < |srcs'| ==> sbufs'[i] == Reverse(read[i])
    ensures sort || ParallelFiles(srcs', tgt') ==> Even(sbufs', tbuf')
    ensures FilesEncode(dicts, FileLines(srcs')) ==> BuffersEncode(dicts, sbufs')
  {
    if sort {
      srcs', tgt', sbufs', tbuf', org, read, readTarget, order := SortedWindow(dicts, srcs, tgt, sbufs, tbuf, w);
    } else {
      srcs', tgt', sbufs', tbuf', org, read, readTarget := ReversedWindow(dicts, srcs, tgt, sbufs, tbuf, w);
      order := [];
    }
  }

  /** What assembly leaves of the iterator's invariants: consistency always;
      alignment and encodability unless the lock-step broke, which an
      encodable buffer rules out; even buffers, and no target underflow,
      from even buffers. */
  lemma AssemblyFacts(st: Settings, fault: Fault, srcs: seq<Stream>, tgt: Stream, sbufs: seq<seq<Line>>, tbuf: seq<Line>,
                      org: seq<nat>, sort: bool)
    requires Consistent(srcs, tgt, sbufs, tbuf, org, sort) && Covers(sbufs, tbuf)
    ensures var a := Assemble(st, fault, sbufs, tbuf, [], [], [], 0);
      |a.tbuf| <= |tbuf| && Consistent(srcs, tgt, a.sbufs, a.tbuf, org[..|a.tbuf|], sort)
    ensures var a := Assemble(st, fault, sbufs, tbuf, [], [], [], 0);
      BuffersEncode(st.sourceDicts, sbufs) ==>
        a.stop != TooManyFactors && BuffersEncode(st.sourceDicts, a.sbufs)
    ensures var a := Assemble(st, fault, sbufs, tbuf, [], [], [], 0);
      InOrder(FileLines(srcs), tgt.lines, sbufs, tbuf, org, sort) && a.stop != TooManyFactors ==>
        InOrder(FileLines(srcs), tgt.lines, a.sbufs, a.tbuf, org[..|a.tbuf|], sort)
    ensures var a := Assemble(st, fault, sbufs, tbuf, [], [], [], 0);
      a.stop == ReadFailure ==> fault.IOErrorAt?
    ensures var a := Assemble(st, fault, sbufs, tbuf, [], [], [], 0);
      Even(sbufs, tbuf) && |sbufs| > 0 ==>
        a.stop != TargetUnderflow && (a.stop != TooManyFactors ==> Even(a.sbufs, a.tbuf))
  {
    var a := Assemble(st, fault, sbufs, tbuf, [], [], [], 0);
    AssembleGrows(st, fault, sbufs, tbuf, [], [], [], 0);
    AssembleCut(st, fault, sbufs, tbuf, [], [], [], 0);
    if sort {
      forall p, q | 0 <= p < q < |a.tbuf| ensures |a.tbuf[p]| <= |a.tbuf[q]| {
        assert a.tbuf[p] == tbuf[p] && a.tbuf[q] == tbuf[q];
      }
    }
    if BuffersEncode(st.sourceDicts, sbufs) {
      AssembleWellFactored(st, fault, sbufs, tbuf, [], [], [], 0);
      AssembleKeepsEncoding(st, fault, sbufs, tbuf);
    }
    if InOrder(FileLines(srcs), tgt.lines, sbufs, tbuf, org, sort) && a.stop != TooManyFactors {
      AssembleAligned(st, fault, FileLines(srcs), tgt.lines, sbufs, tbuf, org);
      var o := org[..|a.tbuf|];
      if !sort {
        forall p, q | 0 <= p < q < |o| ensures o[p] > o[q] {
          assert o[p] == org[p] && o[q] == org[q];
        }
      }
    }
    AssembleFault(st, fault, sbufs, tbuf, [], [], [], 0);
    if Even(sbufs, tbuf) && |sbufs| > 0 {
      AssembleEven(st, fault, sbufs, tbuf, [], [], [], 0);
    }
  }

  /** Examples in the shape the model consumes: as many targets as source
      rows, at most `batch_size` of them, one encoding per source, none too
      long, and target indices below `n_words_target` (or unknown) when
      that is positive. */
  predicate BatchShaped(st: Settings, nSources: nat, bs: seq<seq<SourceCode>>, bt: seq<seq<nat>>) {
    |bt| == |bs| <= BatchCap(st) &&
    forall j :: 0 <= j < |bt| ==>
      |bs[j]| == nSources && !JointlyLong(bs[j], bt[j], st.maxlen) &&
      (st.nWordsTarget > 0 ==> forall t :: 0 <= t < |bt[j]| ==> bt[j][t] < st.nWordsTarget || bt[j][t] == Unknown)
  }

  /** Example `j` encodes line `lineNos[j]` of the target file and of every
      source file; without sorting the lines come in file order. */
  predicate ReadFrom(st: Settings, srcs: seq<Stream>, tgt: Stream, bs: seq<seq<SourceCode>>, bt: seq<seq<nat>>,
                     lineNos: seq<nat>, sort: bool) {
    |lineNos| == |bt| == |bs| &&
    (forall j :: 0 <= j < |bt| ==>
      |bs[j]| == |srcs| && lineNos[j] < |tgt.lines| &&
      bt[j] == EncodeTarget(Tokens(tgt.lines[lineNos[j]]), st.targetDict, st.nWordsTarget) &&
      forall i :: 0 <= i < |srcs| ==>
        lineNos[j] < |srcs[i].lines| &&
        EncodeSource(Tokens(srcs[i].lines[lineNos[j]]), DictsFor(st.sourceDicts, i)) == Some(bs[j][i])) &&
    (!sort ==> forall j, j' :: 0 <= j < j' < |lineNos| ==> lineNos[j] < lineNos[j'])
  }

  /** What a batch holds and where it comes from, on values. */
  lemma BatchFacts(st: Settings, fault: Fault, srcs: seq<Stream>, tgt: Stream, sbufs: seq<seq<Line>>, tbuf: seq<Line>,
                   org: seq<nat>, sort: bool)
    requires Consistent(srcs, tgt, sbufs, tbuf, org, sort) && Covers(sbufs, tbuf)
    ensures var a := Assemble(st, fault, sbufs, tbuf, [], [], [], 0);
      BatchShaped(st, |srcs|, a.sources, a.target)
    ensures var a := Assemble(st, fault, sbufs, tbuf, [], [], [], 0);
      sort ==> forall j, j' :: 0 <= j < j' < |a.target| ==> |a.target[j]| >= |a.target[j']|
    ensures var a := Assemble(st, fault, sbufs, tbuf, [], [], [], 0);
      InOrder(FileLines(srcs), tgt.lines, sbufs, tbuf, org, sort) ==>
        ReadFrom(st, srcs, tgt, a.sources, a.target, LineNumbers(org, a.rows), sort)
  {
    BatchShape(st, fault, sbufs, tbuf);
    if sort {
      LongestFirst(st, fault, sbufs, tbuf);
    }
    if InOrder(FileLines(srcs), tgt.lines, sbufs, tbuf, org, sort) {
      BatchProvenance(st, fault, FileLines(srcs), tgt.lines, sbufs, tbuf, org);
    }
  }

  /** The state one refill leaves: the streams after it, the new buffers,
      the rows read in file order, and the sorting permutation. */
  datatype Fill = Fill(srcs: seq<Stream>, tgt: Stream, sbufs: seq<seq<Line>>, tbuf: seq<Line>,
                       read: seq<seq<Line>>, readTarget: seq<Line>, order: seq<nat>)

  /** `f` is what a refill of window `w` from streams `srcs` and `tgt` into
      empty buffers leaves: the rows `Filled` describes, then sorted
      shortest-last by a permutation, or reversed. */
  ghost predicate RefillOf(sort: bool, srcs: seq<Stream>, tgt: Stream, w: nat, f: Fill) {
    Filled(srcs, tgt, w, f.srcs, f.tgt, f.read, f.readTarget) && |f.sbufs| == |srcs| &&
    (sort ==>
      IsPermutation(f.order, |f.readTarget|) && f.tbuf == Gather(f.readTarget, f.order) &&
      SortedByLength(f.tbuf) && forall i :: 0 <= i < |srcs| ==> f.sbufs[i] == Gather(f.read[i], f.order)) &&
    (!sort ==>
      f.tbuf == Reverse(f.readTarget) && forall i :: 0 <= i < |srcs| ==> f.sbufs[i] == Reverse(f.read[i]))
  }

  /** What assembly from `sbufs` and `tbuf` pops and leaves: of the target
      rows popped, exactly those the length filter keeps are in `rows`; when a
      buffer ran dry nothing is left of the target buffer, and when the batch
      filled or reading failed every buffer lost exactly the rows popped. */
  ghost predicate PoppedExactly(st: Settings, sbufs: seq<seq<Line>>, tbuf: seq<Line>, rows: seq<nat>, stop: Stop,
                                sbufs': seq<seq<Line>>, tbuf': seq<Line>) {
    Covers(sbufs, tbuf) && |sbufs'| == |sbufs| && |tbuf'| <= |tbuf| &&
    (forall p :: |tbuf'| <= p < |tbuf| ==> (Kept(st, sbufs, tbuf, p) <==> p in rows)) &&
    (stop in {Drained, TargetUnderflow} ==> tbuf' == []) &&
    (stop in {BatchFull, ReadFailure} ==> forall i :: 0 <= i < |sbufs| ==>
      sbufs'[i] == sbufs[i][..|sbufs[i]| - (|tbuf| - |tbuf'|)])
  }

  lemma PopFacts(st: Settings, fault: Fault, sbufs: seq<seq<Line>>, tbuf: seq<Line>)
    requires Covers(sbufs, tbuf)
    ensures var a := Assemble(st, fault, sbufs, tbuf, [], [], [], 0);
      PoppedExactly(st, sbufs, tbuf, a.rows, a.stop, a.sbufs, a.tbuf)
  {
    AssembleKeeps(st, fault, sbufs, tbuf, [], [], [], 0);
    AssembleCut(st, fault, sbufs, tbuf, [], [], [], 0);
  }

  /** What `next` returns once assembly over the buffers has stopped: the
      IndexError of an empty target buffer, the end of the epoch when nothing
      was collected, or the batch. */
  function BatchOutcome(a: Assembled): Outcome {
    if a.stop == TargetUnderflow then Crashed(TargetBufferEmpty)
    else if |a.sources| == 0 || |a.target| == 0 then EndOfEpoch
    else Batch(a.sources, a.target)
  }

  /** `next` from line 124 on, served from the buffers `sb` and `tb`: the end
      of the epoch, buffers untouched, when one of them is empty; otherwise
      assembly over them decides the outcome and leaves the buffers it
      leaves, and the end-of-data flag is up exactly when a batch was cut
      short by an IOError. */
  ghost predicate ServedFrom(st: Settings, fault: Fault, sb: seq<seq<Line>>, tb: seq<Line>, r: Outcome,
                             sb': seq<seq<Line>>, tb': seq<Line>, eod: bool) {
    if tb == [] || exists i :: 0 <= i < |sb| && sb[i] == [] then
      r == EndOfEpoch && sb' == sb && tb' == tb && !eod
    else
      var a := Assemble(st, fault, sb, tb, [], [], [], 0);
      r == BatchOutcome(a) && sb' == a.sbufs && tb' == a.tbuf && (eod <==> r.Batch? && a.stop == ReadFailure)
  }

  class TextIterator {
    const sourceDicts: seq<seq<Vocab>>
    const targetDict: Vocab
    const batchSize: int
    const maxlen: int
    const nWordsSource: seq<int>
    const nWordsTarget: int
    const sortByLength: bool
    /** `batch_size * maxibatch_size`: the lines one refill reads at most. */
    const k: int

    var sources: seq<Stream>
    var target: Stream
    var sourceBuffers: seq<seq<Line>>
    var targetBuffer: seq<Line>
    var endOfData: bool
    /** The line number each buffered target row was read at. */
    ghost var origin: seq<nat>

    function Config(): Settings {
      Settings(sourceDicts, targetDict, nWordsTarget, maxlen, batchSize)
    }

    ghost predicate Valid()
      reads this
    {
      Consistent(sources, target, sourceBuffers, targetBuffer, origin, sortByLength)
    }

    predicate Parallel()
      reads this
    {
      ParallelFiles(sources, target)
    }

    ghost predicate Aligned()
      reads this
    {
      InOrder(FileLines(sources), target.lines, sourceBuffers, targetBuffer, origin, sortByLength)
    }

    predicate Balanced()
      reads this
    {
      Even(sourceBuffers, targetBuffer)
    }

    predicate CorpusEncodes()
      reads this
    {
      FilesEncode(sourceDicts, FileLines(sources))
    }

    predicate BufferedEncodes()
      reads this
    {
      BuffersEncode(sourceDicts, sourceBuffers)
    }

    predicate Rewound()
      reads this
    {
      target.pos == 0 && forall i :: 0 <= i < |sources| ==> sources[i].pos == 0
    }

    /** Opens the files, loads and cuts the vocabularies, and starts with
        empty buffers and the end-of-data flag down. Shuffling is not
        modelled. */
    constructor (sourceTexts: seq<string>, targetText: string, sourceDicts: seq<seq<Vocab>>, targetDict: Vocab,
                 batchSize: int, maxlen: int, nWordsSource: seq<int>, nWordsTarget: int,
                 sortByLength: bool, maxibatchSize: int)
      requires forall i :: |sourceDicts| <= i < |nWordsSource| ==> nWordsSource[i] <= 0
      ensures |sources| == |sourceTexts| && forall i :: 0 <= i < |sourceTexts| ==> sources[i] == Open(sourceTexts[i])
      ensures target == Open(targetText)
      ensures |this.sourceDicts| == |sourceDicts|
      ensures forall i :: 0 <= i < |sourceDicts| ==> |this.sourceDicts[i]| == |sourceDicts[i]|
      ensures forall i, f :: 0 <= i < |sourceDicts| && 0 <= f < |sourceDicts[i]| ==>
        if i < |nWordsSource| && nWordsSource[i] > 0
        then TruncatedFrom(this.sourceDicts[i][f], sourceDicts[i][f], nWordsSource[i])
        else this.sourceDicts[i][f] == sourceDicts[i][f]
      ensures if nWordsTarget > 0 then TruncatedFrom(this.targetDict, targetDict, nWordsTarget)
              else this.targetDict == targetDict
      ensures this.batchSize == batchSize && this.maxlen == maxlen && this.nWordsSource == nWordsSource &&
              this.nWordsTarget == nWordsTarget && this.sortByLength == sortByLength &&
              k == batchSize * maxibatchSize
      ensures |sourceBuffers| == |sourceTexts| && (forall i :: 0 <= i < |sourceTexts| ==> sourceBuffers[i] == [])
      ensures targetBuffer == [] && !endOfData
      ensures Valid() && Aligned() && Balanced() && BufferedEncodes()
    {
      var ss := seq(|sourceTexts|, i requires 0 <= i < |sourceTexts| => Open(sourceTexts[i]));
      sources := ss;
      target := Open(targetText);
      var sd := TruncateSourceDicts(sourceDicts, nWordsSource);
      this.sourceDicts := sd;
      if nWordsTarget > 0 {
        var td := DeleteFrom(targetDict, nWordsTarget);
        this.targetDict := td;
      } else {
        this.targetDict := targetDict;
      }
      this.batchSize := batchSize;
      this.maxlen := maxlen;
      this.nWordsSource := nWordsSource;
      this.nWordsTarget := nWordsTarget;
      this.sortByLength := sortByLength;
      sourceBuffers := seq(|sourceTexts|, _ => []);
      targetBuffer := [];
      k := batchSize * maxibatchSize;
      endOfData := false;
      origin := [];
    }

    /** `reset`: every stream back to its first line. */
    method Reset()
      requires Valid()
      modifies this`sources, this`target
      ensures Valid() && Rewound()
      ensures |sources| == |old(sources)| && forall i :: 0 <= i < |sources| ==> sources[i] == Rewind(old(sources[i]))
      ensures target == Rewind(old(target))
      ensures FileLines(sources) == FileLines(old(sources)) && target.lines == old(target.lines)
    {
      var i := 0;
      while i < |sources|
        invariant i <= |sources| == |old(sources)|
        invariant forall j :: 0 <= j < i ==> sources[j] == Rewind(old(sources[j]))
        invariant forall j :: i <= j < |sources| ==> sources[j] == old(sources[j])
        invariant target == old(target)
      {
        sources := sources[i := Rewind(sources[i])];
        i := i + 1;
      }
      target := Rewind(target);
    }

    /** The refill (the `for k_` loop and what follows it): reads up to `k`
        rows into the empty buffers, then sorts them by target length or
        reverses them, so that `pop()` yields the shortest-last or the
        file order. */
    method Refill() returns (ghost read: seq<seq<Line>>, ghost readTarget: seq<Line>, ghost order: seq<nat>)
      requires Valid()
      requires targetBuffer == [] && forall i :: 0 <= i < |sourceBuffers| ==> sourceBuffers[i] == []
      modifies this`sources, this`target, this`sourceBuffers, this`targetBuffer, this`origin
      ensures Consistent(sources, target, sourceBuffers, targetBuffer, origin, sortByLength)
      ensures InOrder(FileLines(sources), target.lines, sourceBuffers, targetBuffer, origin, sortByLength)
      ensures FileLines(sources) == FileLines(old(sources)) && target.lines == old(target.lines)
      ensures Filled(old(sources), old(target), WindowSize(k), sources, target, read, readTarget)
      ensures Covers(sourceBuffers, targetBuffer)
      ensures target == old(target).(pos := old(target).pos + FullRows(old(sources), old(target), WindowSize(k)))
      ensures sortByLength ==>
        IsPermutation(order, |readTarget|) && targetBuffer == Gather(readTarget, order) &&
        forall i :: 0 <= i < |sources| ==> sourceBuffers[i] == Gather(read[i], order)
      ensures !sortByLength ==>
        targetBuffer == Reverse(readTarget) && forall i :: 0 <= i < |sources| ==> sourceBuffers[i] == Reverse(read[i])
      ensures sortByLength || ParallelFiles(sources, target) ==> Even(sourceBuffers, targetBuffer)
      ensures FilesEncode(sourceDicts, FileLines(sources)) ==> BuffersEncode(sourceDicts, sourceBuffers)
    {
      var srcs', tgt', sbufs', tbuf';
      ghost var org;
      srcs', tgt', sbufs', tbuf', org, read, readTarget, order :=
        RefillWindow(sourceDicts, sortByLength, sources, target, sourceBuffers, targetBuffer, WindowSize(k));
      sources, target, sourceBuffers, targetBuffer, origin := srcs', tgt', sbufs', tbuf', org;
    }

    /** `next`: the end of an epoch signalled by the previous call, the
        buffer-size assertion, a refill when the buffers are empty, the end
        of the epoch when they stay empty, then one batch assembled from the
        buffer tails. `lineNos` are the file lines of the batch examples and
        `refilled` tells whether this call read from the files. */
    method Next(fault: Fault) returns (r: Outcome, ghost lineNos: seq<nat>, ghost refilled: bool, ghost f: Fill)
      requires Valid()
      modifies this`sources, this`target, this`sourceBuffers, this`targetBuffer, this`endOfData, this`origin
      ensures Valid()
      ensures FileLines(sources) == FileLines(old(sources)) && target.lines == old(target.lines)
      // the end of data raised by the previous call
      ensures old(endOfData) ==>
        r == EndOfEpoch && !refilled && sourceBuffers == old(sourceBuffers) && targetBuffer == old(targetBuffer)
      ensures r == EndOfEpoch ==> !endOfData && Rewound()
      ensures endOfData ==> r.Batch? && fault.IOErrorAt?
      // the exceptions that escape
      ensures r == Crashed(BufferSizeMismatch) <==> !old(endOfData) && !old(Balanced())
      ensures r == Crashed(NoSourceStreams) <==> !old(endOfData) && |sources| == 0
      ensures r == Crashed(TargetBufferEmpty) ==> refilled && !sortByLength && !Parallel()
      ensures r.Crashed? && r.reason != TargetBufferEmpty ==>
        sources == old(sources) && target == old(target) && endOfData == old(endOfData) &&
        sourceBuffers == old(sourceBuffers) && targetBuffer == old(targetBuffer)
      // the refill
      ensures refilled <==> !old(endOfData) && old(Balanced()) && |old(sourceBuffers)| > 0 && old(sourceBuffers)[0] == []
      ensures r != EndOfEpoch && !refilled ==> sources == old(sources) && target == old(target)
      ensures r != EndOfEpoch && refilled ==>
        target == old(target).(pos := old(target).pos + FullRows(old(sources), old(target), WindowSize(k)))
      ensures refilled ==>
        RefillOf(sortByLength, old(sources), old(target), WindowSize(k), f) &&
        ServedFrom(Config(), fault, f.sbufs, f.tbuf, r, sourceBuffers, targetBuffer, endOfData) &&
        (r != EndOfEpoch ==> sources == f.srcs && target == f.tgt)
      // the batch, from the buffers as they stood
      ensures !old(endOfData) && old(Balanced()) && |sources| > 0 && !refilled ==>
        ServedFrom(Config(), fault, old(sourceBuffers), old(targetBuffer), r, sourceBuffers, targetBuffer, endOfData)
      ensures r.Batch? ==> 1 <= |r.target| && Shaped(r.sources, r.target)
      ensures r.Batch? && sortByLength ==> LongestFirst(r.target)
      ensures r.Batch? && (refilled || old(Aligned())) ==> ReadAt(r.sources, r.target, lineNos)
      // what a well-formed corpus keeps
      ensures old(Aligned() && BufferedEncodes()) && CorpusEncodes() ==> Aligned() && BufferedEncodes()
      ensures old(Balanced() && BufferedEncodes()) && Parallel() && CorpusEncodes() ==>
        Balanced() && (r.Crashed? ==> r.reason == NoSourceStreams)
    {
      lineNos, refilled := [], false;
      f := Fill(sources, target, sourceBuffers, targetBuffer, [], [], []);
      if endOfData {
        endOfData := false;
        Reset();
        return EndOfEpoch, lineNos, refilled, f;
      }
      var i := 0;
      while i < |sourceBuffers|
        invariant i <= |sourceBuffers|
        invariant forall j :: 0 <= j < i ==> |sourceBuffers[j]| == |targetBuffer|
      {
        if |sourceBuffers[i]| != |targetBuffer| {
          return Crashed(BufferSizeMismatch), lineNos, refilled, f;
        }
        i := i + 1;
      }
      if |sourceBuffers| == 0 {
        return Crashed(NoSourceStreams), lineNos, refilled, f;
      }
      r, lineNos, refilled, f := Advance(fault);
    }

    /** `next` from the refill on: refill empty buffers, end the epoch when a
        buffer stays empty, else assemble a batch. */
    method Advance(fault: Fault) returns (r: Outcome, ghost lineNos: seq<nat>, ghost refilled: bool, ghost f: Fill)
      requires Valid() && Balanced() && |sourceBuffers| > 0 && !endOfData
      modifies this`sources, this`target, this`sourceBuffers, this`targetBuffer, this`endOfData, this`origin
      ensures Valid()
      ensures refilled ==>
        RefillOf(sortByLength, old(sources), old(target), WindowSize(k), f) &&
        ServedFrom(Config(), fault, f.sbufs, f.tbuf, r, sourceBuffers, targetBuffer, endOfData) &&
        (r != EndOfEpoch ==> sources == f.srcs && target == f.tgt)
      ensures !refilled ==>
        ServedFrom(Config(), fault, old(sourceBuffers), old(targetBuffer), r, sourceBuffers, targetBuffer, endOfData)
      ensures FileLines(sources) == FileLines(old(sources)) && target.lines == old(target.lines)
      ensures r == EndOfEpoch ==> !endOfData && Rewound()
      ensures endOfData ==> r.Batch? && fault.IOErrorAt?
      ensures r.Crashed? ==> r.reason == TargetBufferEmpty && refilled && !sortByLength && !Parallel()
      ensures refilled <==> old(sourceBuffers)[0] == []
      ensures r != EndOfEpoch && !refilled ==> sources == old(sources) && target == old(target)
      ensures r != EndOfEpoch && refilled ==>
        target == old(target).(pos := old(target).pos + FullRows(old(sources), old(target), WindowSize(k)))
      ensures r.Batch? ==> 1 <= |r.target| && Shaped(r.sources, r.target)
      ensures r.Batch? && sortByLength ==> LongestFirst(r.target)
      ensures r.Batch? && (refilled || old(Aligned())) ==> ReadAt(r.sources, r.target, lineNos)
      ensures old(Aligned() && BufferedEncodes()) && CorpusEncodes() ==> Aligned() && BufferedEncodes()
      ensures old(BufferedEncodes()) && Parallel() && CorpusEncodes() ==> Balanced() && !r.Crashed?
    {
      if |sourceBuffers[0]| == 0 {
        r, lineNos, f := AfterRefill(fault);
        refilled := true;
      } else {
        f := Fill(sources, target, sourceBuffers, targetBuffer, [], [], []);
        r, lineNos := FromBuffers(fault);
        refilled := false;
      }
    }

    /** `next` when the buffers are empty: the refill, the end of the epoch
        when some buffer stays empty, else a batch from the new window. */
    method AfterRefill(fault: Fault) returns (r: Outcome, ghost lineNos: seq<nat>, ghost f: Fill)
      requires Valid() && |sourceBuffers| > 0 && !endOfData
      requires targetBuffer == [] && forall i :: 0 <= i < |sourceBuffers| ==> sourceBuffers[i] == []
      modifies this`sources, this`target, this`sourceBuffers, this`targetBuffer, this`endOfData, this`origin
      ensures Valid()
      ensures RefillOf(sortByLength, old(sources), old(target), WindowSize(k), f)
      ensures ServedFrom(Config(), fault, f.sbufs, f.tbuf, r, sourceBuffers, targetBuffer, endOfData)
      ensures r != EndOfEpoch ==> sources == f.srcs && target == f.tgt
      ensures FileLines(sources) == FileLines(old(sources)) && target.lines == old(target.lines)
      ensures r == EndOfEpoch ==> !endOfData && Rewound()
      ensures endOfData ==> r.Batch? && fault.IOErrorAt?
      ensures r.Crashed? ==> r.reason == TargetBufferEmpty && !sortByLength && !Parallel()
      ensures r != EndOfEpoch ==>
        target == old(target).(pos := old(target).pos + FullRows(old(sources), old(target), WindowSize(k)))
      ensures r.Batch? ==> 1 <= |r.target| && Shaped(r.sources, r.target)
      ensures r.Batch? && sortByLength ==> LongestFirst(r.target)
      ensures r.Batch? ==> ReadAt(r.sources, r.target, lineNos)
      ensures CorpusEncodes() ==> Aligned() && BufferedEncodes()
      ensures Parallel() && CorpusEncodes() ==> Balanced() && !r.Crashed?
    {
      ghost var read, readTarget, order := Refill();
      f := Fill(sources, target, sourceBuffers, targetBuffer, read, readTarget, order);
      r, lineNos := EndOrBatch(fault);
    }

    /** `next` when the buffers hold rows: the end-of-epoch check of line
        124, then a batch from the buffer tails. */
    method FromBuffers(fault: Fault) returns (r: Outcome, ghost lineNos: seq<nat>)
      requires Valid() && Balanced() && |sourceBuffers| > 0 && sourceBuffers[0] != [] && !endOfData
      modifies this`sources, this`target, this`sourceBuffers, this`targetBuffer, this`endOfData, this`origin
      ensures Valid()
      ensures ServedFrom(Config(), fault, old(sourceBuffers), old(targetBuffer), r, sourceBuffers, targetBuffer, endOfData)
      ensures FileLines(sources) == FileLines(old(sources)) && target.lines == old(target.lines)
      ensures r == EndOfEpoch ==> !endOfData && Rewound()
      ensures endOfData ==> r.Batch? && fault.IOErrorAt?
      ensures !r.Crashed?
      ensures r != EndOfEpoch ==> sources == old(sources) && target == old(target)
      ensures r.Batch? ==> 1 <= |r.target| && Shaped(r.sources, r.target)
      ensures r.Batch? && sortByLength ==> LongestFirst(r.target)
      ensures r.Batch? && old(Aligned()) ==> ReadAt(r.sources, r.target, lineNos)
      ensures old(Aligned() && BufferedEncodes()) ==> Aligned() && BufferedEncodes()
      ensures old(BufferedEncodes()) ==> Balanced()
    {
      r, lineNos := EndOrBatch(fault);
    }

    /** The end-of-epoch test of line 124 (some buffer is empty), then a
        batch from the buffer tails. */
    method EndOrBatch(fault: Fault) returns (r: Outcome, ghost lineNos: seq<nat>)
      requires Valid() && Covers(sourceBuffers, targetBuffer) && |sourceBuffers| > 0 && !endOfData
      modifies this`sources, this`target, this`sourceBuffers, this`targetBuffer, this`endOfData, this`origin
      ensures Valid()
      ensures FileLines(sources) == FileLines(old(sources)) && target.lines == old(target.lines)
      ensures ServedFrom(Config(), fault, old(sourceBuffers), old(targetBuffer), r, sourceBuffers, targetBuffer, endOfData)
      ensures r == EndOfEpoch ==> !endOfData && Rewound()
      ensures r != EndOfEpoch ==> sources == old(sources) && target == old(target)
      ensures endOfData ==> r.Batch? && fault.IOErrorAt?
      ensures r.Crashed? ==> r.reason == TargetBufferEmpty && !old(Balanced())
      ensures r.Batch? ==> 1 <= |r.target| && Shaped(r.sources, r.target)
      ensures r.Batch? && sortByLength ==> LongestFirst(r.target)
      ensures r.Batch? && old(Aligned()) ==> ReadAt(r.sources, r.target, lineNos)
      ensures old(Aligned() && BufferedEncodes()) ==> Aligned() && BufferedEncodes()
      ensures old(Balanced() && BufferedEncodes()) ==> Balanced() && !r.Crashed?
    {
      lineNos := [];
      if (exists i :: 0 <= i < |sourceBuffers| && |sourceBuffers[i]| == 0) || |targetBuffer| == 0 {
        endOfData := false;
        Reset();
        return EndOfEpoch, lineNos;
      }
      r, lineNos := TakeBatch(fault);
    }

    /** Examples in the shape the model consumes (see `BatchShaped`). */
    predicate Shaped(bs: seq<seq<SourceCode>>, bt: seq<seq<nat>>)
      reads this
    {
      BatchShaped(Config(), |sources|, bs, bt)
    }

    /** Targets in order of non-increasing length. */
    predicate LongestFirst(bt: seq<seq<nat>>) {
      forall j, j' :: 0 <= j < j' < |bt| ==> |bt[j]| >= |bt[j']|
    }

    /** Example `j` encodes line `lineNos[j]` of every file (see `ReadFrom`). */
    predicate ReadAt(bs: seq<seq<SourceCode>>, bt: seq<seq<nat>>, lineNos: seq<nat>)
      reads this
    {
      ReadFrom(Config(), sources, target, bs, bt, lineNos, sortByLength)
    }

    /** The `try` block of `next`: assembly from the buffer tails, and the
        end-of-data flag on an IOError. */
    method PopBatch(fault: Fault)
      returns (bs: seq<seq<SourceCode>>, bt: seq<seq<nat>>, ghost lineNos: seq<nat>, ghost rows: seq<nat>, stop: Stop)
      requires Valid() && Covers(sourceBuffers, targetBuffer) && |sourceBuffers| > 0 && !endOfData
      modifies this`sourceBuffers, this`targetBuffer, this`endOfData, this`origin
      ensures Valid()
      ensures var a := Assemble(Config(), fault, old(sourceBuffers), old(targetBuffer), [], [], [], 0);
        bs == a.sources && bt == a.target && stop == a.stop &&
        sourceBuffers == a.sbufs && targetBuffer == a.tbuf &&
        |targetBuffer| <= |old(origin)| && origin == old(origin)[..|targetBuffer|] &&
        rows == a.rows && lineNos == LineNumbers(old(origin), rows)
      ensures PoppedExactly(Config(), old(sourceBuffers), old(targetBuffer), rows, stop, sourceBuffers, targetBuffer)
      ensures endOfData <==> stop == ReadFailure
      // the IOError strikes in the iteration that pops row |targetBuffer| of
      // the old buffer, and raises the flag whenever the loop reaches it
      ensures stop == ReadFailure ==> fault.IOErrorAt? && fault.iteration + |targetBuffer| == |old(targetBuffer)|
      ensures fault.IOErrorAt? && fault.iteration + |targetBuffer| < |old(targetBuffer)| ==> endOfData
      ensures fault.IOErrorAt? && fault.iteration + |targetBuffer| == |old(targetBuffer)| && stop != BatchFull ==> endOfData
      ensures stop == TargetUnderflow ==> !old(Balanced())
      ensures Shaped(bs, bt)
      ensures sortByLength ==> LongestFirst(bt)
      ensures old(Aligned()) ==> ReadAt(bs, bt, lineNos)
      ensures old(Aligned() && BufferedEncodes()) ==> Aligned() && BufferedEncodes()
      ensures old(Balanced() && BufferedEncodes()) ==> Balanced() && stop != TargetUnderflow
    {
      ghost var org := origin;
      ghost var sb, tb := sourceBuffers, targetBuffer;
      var sbufs', tbuf';
      bs, bt, rows, sbufs', tbuf', stop := AssembleBatch(Config(), fault, sourceBuffers, targetBuffer);
      AssemblyFacts(Config(), fault, sources, target, sb, tb, org, sortByLength);
      BatchFacts(Config(), fault, sources, target, sb, tb, org, sortByLength);
      AssembleFault(Config(), fault, sb, tb, [], [], [], 0);
      PopFacts(Config(), fault, sb, tb);
      sourceBuffers, targetBuffer := sbufs', tbuf';
      origin := org[..|tbuf'|];
      endOfData := stop == ReadFailure;
      lineNos := LineNumbers(org, rows);
    }

    /** The rest of `next`: the uncaught IndexError of an empty target
        buffer, the end of the epoch when nothing was collected, or the
        batch. */
    method TakeBatch(fault: Fault) returns (r: Outcome, ghost lineNos: seq<nat>)
      requires Valid() && Covers(sourceBuffers, targetBuffer) && |sourceBuffers| > 0 && !endOfData
      modifies this`sources, this`target, this`sourceBuffers, this`targetBuffer, this`endOfData, this`origin
      ensures Valid()
      ensures var a := Assemble(Config(), fault, old(sourceBuffers), old(targetBuffer), [], [], [], 0);
        r == BatchOutcome(a) && sourceBuffers == a.sbufs && targetBuffer == a.tbuf &&
        (endOfData <==> r.Batch? && a.stop == ReadFailure)
      ensures FileLines(sources) == FileLines(old(sources)) && target.lines == old(target.lines)
      ensures r == EndOfEpoch ==> !endOfData && Rewound()
      ensures r != EndOfEpoch ==> sources == old(sources) && target == old(target)
      ensures endOfData ==> r.Batch? && fault.IOErrorAt?
      ensures r.Crashed? ==> r.reason == TargetBufferEmpty && !old(Balanced())
      ensures r.Batch? ==> 1 <= |r.target| && Shaped(r.sources, r.target)
      ensures r.Batch? && sortByLength ==> LongestFirst(r.target)
      ensures r.Batch? && old(Aligned()) ==> ReadAt(r.sources, r.target, lineNos)
      ensures old(Aligned() && BufferedEncodes()) ==> Aligned() && BufferedEncodes()
      ensures old(Balanced() && BufferedEncodes()) ==> Balanced() && !r.Crashed?
    {
      var bs, bt, stop;
      ghost var rows;
      bs, bt, lineNos, rows, stop := PopBatch(fault);
      if stop == TargetUnderflow {
        return Crashed(TargetBufferEmpty), lineNos;
      }
      if |bs| == 0 || |bt| == 0 {
        endOfData := false;
        Reset();
        return EndOfEpoch, lineNos;
      }
      r := Batch(bs, bt);
    }
  }
}
