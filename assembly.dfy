/** Batch assembly (the `while True` loop of `next`): examples are popped from
    the tails of the buffers in lock-step, encoded, filtered by length and
    collected until the batch is full or the buffers give out. */
module Assembly {
  import opened Options
  import opened Vocabulary
  import opened Encoding

  /** Why the assembly loop ended. */
  datatype Stop =
    | BatchFull        // `batch_size` examples collected
    | Drained          // `pop()` on an empty source buffer: IndexError, caught
    | TooManyFactors   // a source token with more factors than dictionaries: IndexError, caught
    | ReadFailure      // IOError: the end-of-data flag is set
    | TargetUnderflow  // `pop()` on an empty target buffer: IndexError, not caught

  /** Where an IOError strikes during assembly: at the start of the given
      iteration of the loop, or nowhere. */
  datatype Fault = NoFault | IOErrorAt(iteration: nat)

  /** What assembly reads from the iterator's configuration. */
  datatype Settings = Settings(sourceDicts: seq<seq<Vocab>>, targetDict: Vocab,
                               nWordsTarget: int, maxlen: int, batchSize: int)

  function Last<T>(s: seq<T>): T
    requires s != []
  {
    s[|s| - 1]
  }

  function DropLast<T>(s: seq<T>): seq<T>
    requires s != []
  {
    s[..|s| - 1]
  }

  // ---------------------------------------------------------------------------
  // The loop, one iteration per call

  /** The inner `for` over the source buffers, from buffer `k` on. */
  datatype Popped =
    | AllPopped(sbufs: seq<seq<Line>>, codes: seq<SourceCode>)
    | SourceEmpty(sbufs: seq<seq<Line>>)
    | BadFactors(sbufs: seq<seq<Line>>)

  function PopSources(dicts: seq<seq<Vocab>>, sbufs: seq<seq<Line>>, k: nat, codes: seq<SourceCode>): Popped
    requires k <= |sbufs|
    decreases |sbufs| - k
  {
    if k == |sbufs| then AllPopped(sbufs, codes)
    else if sbufs[k] == [] then SourceEmpty(sbufs)
    else
      var rest := sbufs[k := DropLast(sbufs[k])];
      match EncodeSource(Last(sbufs[k]), DictsFor(dicts, k))
      case None => BadFactors(rest)
      case Some(c) => PopSources(dicts, rest, k + 1, codes + [c])
  }

  /** The end of assembly: the batch so far (`rows` are the target-buffer
      positions its examples were popped from), the buffers left, and why it
      stopped. */
  datatype Assembled = Assembled(sources: seq<seq<SourceCode>>, target: seq<seq<nat>>, rows: seq<nat>,
                                 sbufs: seq<seq<Line>>, tbuf: seq<Line>, stop: Stop)

  function Assemble(st: Settings, fault: Fault, sbufs: seq<seq<Line>>, tbuf: seq<Line>,
                    sources: seq<seq<SourceCode>>, target: seq<seq<nat>>, rows: seq<nat>, iter: nat): Assembled
    decreases |tbuf|
  {
    if fault == IOErrorAt(iter) then Assembled(sources, target, rows, sbufs, tbuf, ReadFailure)
    else
      match PopSources(st.sourceDicts, sbufs, 0, [])
      case SourceEmpty(sb) => Assembled(sources, target, rows, sb, tbuf, Drained)
      case BadFactors(sb) => Assembled(sources, target, rows, sb, tbuf, TooManyFactors)
      case AllPopped(sb, codes) =>
        if tbuf == [] then Assembled(sources, target, rows, sb, tbuf, TargetUnderflow)
        else
          var t := EncodeTarget(Last(tbuf), st.targetDict, st.nWordsTarget);
          if JointlyLong(codes, t, st.maxlen) then
            Assemble(st, fault, sb, DropLast(tbuf), sources, target, rows, iter + 1)
          else
            var sources', target', rows' := sources + [codes], target + [t], rows + [|tbuf| - 1];
            if |sources'| >= st.batchSize || |target'| >= st.batchSize then
              Assembled(sources', target', rows', sb, DropLast(tbuf), BatchFull)
            else
              Assemble(st, fault, sb, DropLast(tbuf), sources', target', rows', iter + 1)
  }

  /** The assembly loop itself. */
  method AssembleBatch(st: Settings, fault: Fault, sbufs: seq<seq<Line>>, tbuf: seq<Line>)
    returns (sources: seq<seq<SourceCode>>, target: seq<seq<nat>>, ghost rows: seq<nat>,
             sbufs': seq<seq<Line>>, tbuf': seq<Line>, stop: Stop)
    ensures var a := Assemble(st, fault, sbufs, tbuf, [], [], [], 0);
      a.sources == sources && a.target == target && a.sbufs == sbufs' && a.tbuf == tbuf' && a.stop == stop
    ensures Assemble(st, fault, sbufs, tbuf, [], [], [], 0).rows == rows
  {
    sources, target, rows := [], [], [];
    sbufs', tbuf' := sbufs, tbuf;
    var iter := 0;
    while true
      invariant Assemble(st, fault, sbufs, tbuf, [], [], [], 0) ==
                Assemble(st, fault, sbufs', tbuf', sources, target, rows, iter)
      decreases |tbuf'|
    {
      if fault == IOErrorAt(iter) {
        stop := ReadFailure;
        return;
      }
      ghost var before := sbufs';
      var codes: seq<SourceCode> := [];
      var k := 0;
      while k < |sbufs'|
        invariant k <= |sbufs'| == |before|
        invariant PopSources(st.sourceDicts, before, 0, []) == PopSources(st.sourceDicts, sbufs', k, codes)
      {
        if sbufs'[k] == [] {
          stop := Drained;
          return;
        }
        var ss := Last(sbufs'[k]);
        sbufs' := sbufs'[k := DropLast(sbufs'[k])];
        var code := EncodeSource(ss, DictsFor(st.sourceDicts, k));
        if code.None? {
          stop := TooManyFactors;
          return;
        }
        codes := codes + [code.value];
        k := k + 1;
      }
      assert PopSources(st.sourceDicts, before, 0, []) == AllPopped(sbufs', codes);
      if tbuf' == [] {
        stop := TargetUnderflow;
        return;
      }
      var tt := EncodeTarget(Last(tbuf'), st.targetDict, st.nWordsTarget);
      ghost var row := |tbuf'| - 1;
      tbuf' := DropLast(tbuf');
      if !JointlyLong(codes, tt, st.maxlen) {
        sources, target, rows := sources + [codes], target + [tt], rows + [row];
        if |sources| >= st.batchSize || |target| >= st.batchSize {
          stop := BatchFull;
          return;
        }
      }
      iter := iter + 1;
    }
  }

  // ---------------------------------------------------------------------------
  // What one call of the loop guarantees

  /** Every source buffer is at least as long as the target buffer; its last
      |tbuf| entries are the ones aligned with the target buffer. */
  predicate Covers(sbufs: seq<seq<Line>>, tbuf: seq<Line>) {
    forall i :: 0 <= i < |sbufs| ==> |sbufs[i]| >= |tbuf|
  }

  /** The entry of source buffer `i` aligned with target position `p`. */
  function SourceAt(sbufs: seq<seq<Line>>, tbuf: seq<Line>, i: nat, p: nat): Line
    requires i < |sbufs| && |sbufs[i]| >= |tbuf| && p < |tbuf|
  {
    sbufs[i][p + |sbufs[i]| - |tbuf|]
  }

  /** The source encodings of the example at target position `p`, if every
      source line of it encodes. */
  function RowCodes(st: Settings, sbufs: seq<seq<Line>>, tbuf: seq<Line>, p: nat): (r: Option<seq<SourceCode>>)
    requires Covers(sbufs, tbuf) && p < |tbuf|
    ensures r.Some? ==> |r.value| == |sbufs|
  {
    if forall i :: 0 <= i < |sbufs| ==> EncodeSource(SourceAt(sbufs, tbuf, i, p), DictsFor(st.sourceDicts, i)).Some?
    then Some(seq(|sbufs|, i requires 0 <= i < |sbufs| =>
                  EncodeSource(SourceAt(sbufs, tbuf, i, p), DictsFor(st.sourceDicts, i)).value))
    else None
  }

  lemma RowCodesSome(st: Settings, sbufs: seq<seq<Line>>, tbuf: seq<Line>, p: nat, codes: seq<SourceCode>)
    requires Covers(sbufs, tbuf) && p < |tbuf| && |codes| == |sbufs|
    requires forall i :: 0 <= i < |sbufs| ==>
      EncodeSource(SourceAt(sbufs, tbuf, i, p), DictsFor(st.sourceDicts, i)) == Some(codes[i])
    ensures RowCodes(st, sbufs, tbuf, p) == Some(codes)
  {
    var r := RowCodes(st, sbufs, tbuf, p);
    assert r.Some?;
    forall i | 0 <= i < |sbufs| ensures r.value[i] == codes[i] {
      assert r.value[i] == EncodeSource(SourceAt(sbufs, tbuf, i, p), DictsFor(st.sourceDicts, i)).value;
    }
    assert r.value == codes;
  }

  lemma RowCodesEntry(st: Settings, sbufs: seq<seq<Line>>, tbuf: seq<Line>, p: nat, i: nat)
    requires Covers(sbufs, tbuf) && p < |tbuf| && i < |sbufs|
    requires RowCodes(st, sbufs, tbuf, p).Some?
    ensures EncodeSource(SourceAt(sbufs, tbuf, i, p), DictsFor(st.sourceDicts, i)) ==
            Some(RowCodes(st, sbufs, tbuf, p).value[i])
  {
  }

  lemma RowCodesAgree(st: Settings, sbufs: seq<seq<Line>>, tbuf: seq<Line>, p: nat,
                      sbufs': seq<seq<Line>>, tbuf': seq<Line>, p': nat)
    requires Covers(sbufs, tbuf) && p < |tbuf| && Covers(sbufs', tbuf') && p' < |tbuf'| && |sbufs| == |sbufs'|
    requires forall i :: 0 <= i < |sbufs| ==> SourceAt(sbufs, tbuf, i, p) == SourceAt(sbufs', tbuf', i, p')
    ensures RowCodes(st, sbufs, tbuf, p) == RowCodes(st, sbufs', tbuf', p')
  {
    var r := RowCodes(st, sbufs, tbuf, p);
    if r.Some? {
      RowCodesSome(st, sbufs', tbuf', p', r.value);
    }
  }

  /** Whether the example at target position `p` survives the length filter. */
  predicate Kept(st: Settings, sbufs: seq<seq<Line>>, tbuf: seq<Line>, p: nat)
    requires Covers(sbufs, tbuf) && p < |tbuf|
  {
    var codes := RowCodes(st, sbufs, tbuf, p);
    codes.Some? && !JointlyLong(codes.value, EncodeTarget(tbuf[p], st.targetDict, st.nWordsTarget), st.maxlen)
  }

  /** Popping touches each source buffer at most once, at its tail, and leaves
      the buffers before `k` alone. */
  lemma {:induction false} PopFrame(dicts: seq<seq<Vocab>>, sbufs: seq<seq<Line>>, k: nat, codes: seq<SourceCode>)
    requires k <= |sbufs|
    ensures var r := PopSources(dicts, sbufs, k, codes);
      |r.sbufs| == |sbufs| &&
      (forall i :: 0 <= i < k ==> r.sbufs[i] == sbufs[i]) &&
      (forall i :: 0 <= i < |sbufs| ==> r.sbufs[i] == sbufs[i] || (sbufs[i] != [] && r.sbufs[i] == DropLast(sbufs[i])))
    decreases |sbufs| - k
  {
    if k < |sbufs| && sbufs[k] != [] {
      var rest := sbufs[k := DropLast(sbufs[k])];
      var e := EncodeSource(Last(sbufs[k]), DictsFor(dicts, k));
      if e.Some? {
        PopFrame(dicts, rest, k + 1, codes + [e.value]);
        var r := PopSources(dicts, rest, k + 1, codes + [e.value]);
        assert PopSources(dicts, sbufs, k, codes) == r;
        FrameStep(sbufs, k, r.sbufs);
      }
    }
  }

  /** Taking the last entry off buffer `k` and then touching only buffers
      after `k`, each at most once at its tail. */
  lemma FrameStep(sbufs: seq<seq<Line>>, k: nat, sbufs': seq<seq<Line>>)
    requires k < |sbufs| && sbufs[k] != []
    requires var rest := sbufs[k := DropLast(sbufs[k])];
      |sbufs'| == |rest| &&
      (forall i :: 0 <= i < k + 1 ==> sbufs'[i] == rest[i]) &&
      (forall i :: 0 <= i < |rest| ==> sbufs'[i] == rest[i] || (rest[i] != [] && sbufs'[i] == DropLast(rest[i])))
    ensures |sbufs'| == |sbufs| &&
      (forall i :: 0 <= i < k ==> sbufs'[i] == sbufs[i]) &&
      (forall i :: 0 <= i < |sbufs| ==> sbufs'[i] == sbufs[i] || (sbufs[i] != [] && sbufs'[i] == DropLast(sbufs[i])))
  {
    forall i | 0 <= i < |sbufs|
      ensures sbufs'[i] == sbufs[i] || (sbufs[i] != [] && sbufs'[i] == DropLast(sbufs[i]))
    {
      if i == k {
        assert sbufs'[k] == DropLast(sbufs[k]);
      }
    }
  }

  /** A pop that reaches every buffer takes the last entry off each of them
      and records its encoding. */
  lemma {:induction false} PopComplete(dicts: seq<seq<Vocab>>, sbufs: seq<seq<Line>>, k: nat, codes: seq<SourceCode>)
    requires k <= |sbufs| && |codes| == k
    requires PopSources(dicts, sbufs, k, codes).AllPopped?
    ensures var r := PopSources(dicts, sbufs, k, codes);
      |r.sbufs| == |r.codes| == |sbufs| && r.codes[..k] == codes &&
      forall i :: k <= i < |sbufs| ==>
        sbufs[i] != [] && r.sbufs[i] == DropLast(sbufs[i]) &&
        EncodeSource(Last(sbufs[i]), DictsFor(dicts, i)) == Some(r.codes[i])
    decreases |sbufs| - k
  {
    var r := PopSources(dicts, sbufs, k, codes);
    if k == |sbufs| {
      assert r.codes == codes;
      assert codes[..k] == codes;
    } else {
      var rest := sbufs[k := DropLast(sbufs[k])];
      var e := EncodeSource(Last(sbufs[k]), DictsFor(dicts, k));
      var c' := codes + [e.value];
      assert r == PopSources(dicts, rest, k + 1, c');
      PopComplete(dicts, rest, k + 1, c');
      PopFrame(dicts, rest, k + 1, c');
      assert r.codes[..k] == r.codes[..k + 1][..k] == c'[..k] == codes;
      assert r.codes[k] == c'[k] == e.value;
      forall i | k <= i < |sbufs|
        ensures sbufs[i] != [] && r.sbufs[i] == DropLast(sbufs[i])
        ensures EncodeSource(Last(sbufs[i]), DictsFor(dicts, i)) == Some(r.codes[i])
      {
        if i == k {
          assert r.sbufs[k] == rest[k];
        } else {
          assert rest[i] == sbufs[i];
        }
      }
    }
  }

  /** A pop that stops early does so at an empty buffer or at a line that does
      not encode. */
  lemma {:induction false} PopIncomplete(dicts: seq<seq<Vocab>>, sbufs: seq<seq<Line>>, k: nat, codes: seq<SourceCode>)
    requires k <= |sbufs|
    ensures var r := PopSources(dicts, sbufs, k, codes);
      (r.SourceEmpty? ==> exists i :: k <= i < |sbufs| && sbufs[i] == []) &&
      (r.BadFactors? ==>
        exists i :: k <= i < |sbufs| && sbufs[i] != [] && EncodeSource(Last(sbufs[i]), DictsFor(dicts, i)).None?)
    decreases |sbufs| - k
  {
    if k < |sbufs| && sbufs[k] != [] {
      var rest := sbufs[k := DropLast(sbufs[k])];
      var e := EncodeSource(Last(sbufs[k]), DictsFor(dicts, k));
      if e.Some? {
        PopIncomplete(dicts, rest, k + 1, codes + [e.value]);
        var r := PopSources(dicts, rest, k + 1, codes + [e.value]);
        if r.SourceEmpty? {
          var i :| k + 1 <= i < |rest| && rest[i] == [];
          assert sbufs[i] == rest[i];
        }
        if r.BadFactors? {
          var i :| k + 1 <= i < |rest| && rest[i] != [] && EncodeSource(Last(rest[i]), DictsFor(dicts, i)).None?;
          assert sbufs[i] == rest[i];
        }
      }
    }
  }

  lemma PopAll(dicts: seq<seq<Vocab>>, sbufs: seq<seq<Line>>)
    ensures var r := PopSources(dicts, sbufs, 0, []);
      |r.sbufs| == |sbufs| &&
      (forall i :: 0 <= i < |sbufs| ==> r.sbufs[i] == sbufs[i] || (sbufs[i] != [] && r.sbufs[i] == DropLast(sbufs[i]))) &&
      (r.AllPopped? ==>
        |r.codes| == |sbufs| &&
        forall i :: 0 <= i < |sbufs| ==>
          sbufs[i] != [] && r.sbufs[i] == DropLast(sbufs[i]) &&
          EncodeSource(Last(sbufs[i]), DictsFor(dicts, i)) == Some(r.codes[i])) &&
      (r.SourceEmpty? ==> exists i :: 0 <= i < |sbufs| && sbufs[i] == []) &&
      (r.BadFactors? ==>
        exists i :: 0 <= i < |sbufs| && sbufs[i] != [] && EncodeSource(Last(sbufs[i]), DictsFor(dicts, i)).None?)
  {
    PopFrame(dicts, sbufs, 0, []);
    PopIncomplete(dicts, sbufs, 0, []);
    if PopSources(dicts, sbufs, 0, []).AllPopped? {
      PopComplete(dicts, sbufs, 0, []);
    }
  }

  /** One complete iteration: every buffer loses its last entry, the
      encodings are those of the target's last position, and the remaining
      alignment is unchanged. */
  lemma OneRow(st: Settings, sbufs: seq<seq<Line>>, tbuf: seq<Line>)
    requires Covers(sbufs, tbuf) && tbuf != []
    requires PopSources(st.sourceDicts, sbufs, 0, []).AllPopped?
    ensures var r := PopSources(st.sourceDicts, sbufs, 0, []);
      Covers(r.sbufs, DropLast(tbuf)) && |r.sbufs| == |sbufs| &&
      RowCodes(st, sbufs, tbuf, |tbuf| - 1) == Some(r.codes) &&
      (forall i, p :: 0 <= i < |sbufs| && 0 <= p < |tbuf| - 1 ==>
        SourceAt(r.sbufs, DropLast(tbuf), i, p) == SourceAt(sbufs, tbuf, i, p)) &&
      (forall p :: 0 <= p < |tbuf| - 1 ==> RowCodes(st, r.sbufs, DropLast(tbuf), p) == RowCodes(st, sbufs, tbuf, p))
  {
    PopComplete(st.sourceDicts, sbufs, 0, []);
    var r := PopSources(st.sourceDicts, sbufs, 0, []);
    var t := DropLast(tbuf);
    TailsDropped(sbufs, tbuf, r.sbufs);
    RowCodesSome(st, sbufs, tbuf, |tbuf| - 1, r.codes);
    forall p | 0 <= p < |tbuf| - 1
      ensures RowCodes(st, r.sbufs, t, p) == RowCodes(st, sbufs, tbuf, p)
    {
      RowCodesAgree(st, r.sbufs, t, p, sbufs, tbuf, p);
    }
  }

  /** Dropping the last entry of every source buffer keeps the alignment of
      the other positions with the target buffer less its last row. */
  lemma TailsDropped(sbufs: seq<seq<Line>>, tbuf: seq<Line>, sbufs': seq<seq<Line>>)
    requires Covers(sbufs, tbuf) && tbuf != [] && |sbufs'| == |sbufs|
    requires forall i :: 0 <= i < |sbufs| ==> sbufs[i] != [] && sbufs'[i] == DropLast(sbufs[i])
    ensures Covers(sbufs', DropLast(tbuf))
    ensures forall i :: 0 <= i < |sbufs| ==> Last(sbufs[i]) == SourceAt(sbufs, tbuf, i, |tbuf| - 1)
    ensures forall i, p :: 0 <= i < |sbufs| && 0 <= p < |tbuf| - 1 ==>
      SourceAt(sbufs', DropLast(tbuf), i, p) == SourceAt(sbufs, tbuf, i, p)
  {
    forall i, p | 0 <= i < |sbufs| && 0 <= p < |tbuf| - 1
      ensures SourceAt(sbufs', DropLast(tbuf), i, p) == SourceAt(sbufs, tbuf, i, p)
    {
      assert sbufs'[i][p + |sbufs'[i]| - (|tbuf| - 1)] == sbufs[i][p + |sbufs[i]| - |tbuf|];
    }
  }

  /** Whether there is still room in a batch of `n` examples. */
  predicate Room(st: Settings, n: nat) {
    n == 0 || n < st.batchSize
  }

  function BatchCap(st: Settings): nat {
    if st.batchSize >= 1 then st.batchSize else 1
  }

  /** Assembly from iteration `iter` over a target buffer of `n` rows ended
      in `a` with a read failure exactly when the loop reached the iteration
      the IOError strikes in. Every iteration but a `BatchFull` last one pops
      a target row, so the iterations reached are `iter` up to `iter` plus
      the rows popped, the last excluded after `BatchFull`. */
  ghost predicate FaultTimed(fault: Fault, iter: nat, n: nat, a: Assembled) {
    (a.stop == ReadFailure ==> fault.IOErrorAt? && fault.iteration + |a.tbuf| == iter + n) &&
    (fault.IOErrorAt? && iter <= fault.iteration && fault.iteration + |a.tbuf| < iter + n ==> a.stop == ReadFailure) &&
    (fault.IOErrorAt? && iter <= fault.iteration && fault.iteration + |a.tbuf| == iter + n && a.stop != BatchFull ==>
       a.stop == ReadFailure)
  }

  /** An IOError ends assembly exactly in the iteration it strikes in, if the
      loop gets there. */
  lemma {:induction false} AssembleFault(st: Settings, fault: Fault, sbufs: seq<seq<Line>>, tbuf: seq<Line>,
                                         sources: seq<seq<SourceCode>>, target: seq<seq<nat>>, rows: seq<nat>, iter: nat)
    ensures FaultTimed(fault, iter, |tbuf|, Assemble(st, fault, sbufs, tbuf, sources, target, rows, iter))
    decreases |tbuf|, 3
  {
    var a := Assemble(st, fault, sbufs, tbuf, sources, target, rows, iter);
    if fault != IOErrorAt(iter) {
      if tbuf != [] && PopSources(st.sourceDicts, sbufs, 0, []).AllPopped? {
        FaultNext(st, fault, sbufs, tbuf, sources, target, rows, iter);
      } else {
        assert a.stop != ReadFailure && a.tbuf == tbuf;
        FaultAbsent(fault, iter, tbuf, a);
      }
    }
  }

  lemma {:induction false} FaultNext(st: Settings, fault: Fault, sbufs: seq<seq<Line>>, tbuf: seq<Line>,
                                     sources: seq<seq<SourceCode>>, target: seq<seq<nat>>, rows: seq<nat>, iter: nat)
    requires fault != IOErrorAt(iter) && tbuf != [] && PopSources(st.sourceDicts, sbufs, 0, []).AllPopped?
    ensures FaultTimed(fault, iter, |tbuf|, Assemble(st, fault, sbufs, tbuf, sources, target, rows, iter))
    decreases |tbuf|, 2
  {
    var pop := PopSources(st.sourceDicts, sbufs, 0, []);
    if JointlyLong(pop.codes, EncodeTarget(Last(tbuf), st.targetDict, st.nWordsTarget), st.maxlen) {
      FaultSkipped(st, fault, sbufs, tbuf, sources, target, rows, iter);
    } else {
      FaultTaken(st, fault, sbufs, tbuf, sources, target, rows, iter);
    }
  }

  lemma {:induction false} FaultSkipped(st: Settings, fault: Fault, sbufs: seq<seq<Line>>, tbuf: seq<Line>,
                                     sources: seq<seq<SourceCode>>, target: seq<seq<nat>>, rows: seq<nat>, iter: nat)
    requires fault != IOErrorAt(iter) && tbuf != [] && PopSources(st.sourceDicts, sbufs, 0, []).AllPopped?
    requires var pop := PopSources(st.sourceDicts, sbufs, 0, []);
      JointlyLong(pop.codes, EncodeTarget(Last(tbuf), st.targetDict, st.nWordsTarget), st.maxlen)
    ensures FaultTimed(fault, iter, |tbuf|, Assemble(st, fault, sbufs, tbuf, sources, target, rows, iter))
    decreases |tbuf|, 0
  {
    var pop := PopSources(st.sourceDicts, sbufs, 0, []);
    var tb := DropLast(tbuf);
    var a := Assemble(st, fault, sbufs, tbuf, sources, target, rows, iter);
    assert a == Assemble(st, fault, pop.sbufs, tb, sources, target, rows, iter + 1);
    AssembleFault(st, fault, pop.sbufs, tb, sources, target, rows, iter + 1);
    FaultStep(fault, iter, tbuf, a);
  }

  lemma {:induction false} FaultTaken(st: Settings, fault: Fault, sbufs: seq<seq<Line>>, tbuf: seq<Line>,
                                     sources: seq<seq<SourceCode>>, target: seq<seq<nat>>, rows: seq<nat>, iter: nat)
    requires fault != IOErrorAt(iter) && tbuf != [] && PopSources(st.sourceDicts, sbufs, 0, []).AllPopped?
    requires var pop := PopSources(st.sourceDicts, sbufs, 0, []);
      !JointlyLong(pop.codes, EncodeTarget(Last(tbuf), st.targetDict, st.nWordsTarget), st.maxlen)
    ensures FaultTimed(fault, iter, |tbuf|, Assemble(st, fault, sbufs, tbuf, sources, target, rows, iter))
    decreases |tbuf|, 1
  {
    if |sources| + 1 >= st.batchSize || |target| + 1 >= st.batchSize {
      var pop := PopSources(st.sourceDicts, sbufs, 0, []);
      var t := EncodeTarget(Last(tbuf), st.targetDict, st.nWordsTarget);
      var a := Assemble(st, fault, sbufs, tbuf, sources, target, rows, iter);
      assert a == Assembled(sources + [pop.codes], target + [t], rows + [|tbuf| - 1], pop.sbufs, DropLast(tbuf), BatchFull);
      FaultAbsent(fault, iter, tbuf, a);
    } else {
      FaultContinued(st, fault, sbufs, tbuf, sources, target, rows, iter);
    }
  }

  lemma {:induction false} FaultContinued(st: Settings, fault: Fault, sbufs: seq<seq<Line>>, tbuf: seq<Line>,
                                     sources: seq<seq<SourceCode>>, target: seq<seq<nat>>, rows: seq<nat>, iter: nat)
    requires fault != IOErrorAt(iter) && tbuf != [] && PopSources(st.sourceDicts, sbufs, 0, []).AllPopped?
    requires var pop := PopSources(st.sourceDicts, sbufs, 0, []);
      !JointlyLong(pop.codes, EncodeTarget(Last(tbuf), st.targetDict, st.nWordsTarget), st.maxlen)
    requires |sources| + 1 < st.batchSize && |target| + 1 < st.batchSize
    ensures FaultTimed(fault, iter, |tbuf|, Assemble(st, fault, sbufs, tbuf, sources, target, rows, iter))
    decreases |tbuf|, 0
  {
    var pop := PopSources(st.sourceDicts, sbufs, 0, []);
    var t := EncodeTarget(Last(tbuf), st.targetDict, st.nWordsTarget);
    var tb := DropLast(tbuf);
    var a := Assemble(st, fault, sbufs, tbuf, sources, target, rows, iter);
    var s', t', r' := sources + [pop.codes], target + [t], rows + [|tbuf| - 1];
    assert a == Assemble(st, fault, pop.sbufs, tb, s', t', r', iter + 1);
    AssembleFault(st, fault, pop.sbufs, tb, s', t', r', iter + 1);
    FaultStep(fault, iter, tbuf, a);
  }

  /** A loop that stopped without an IOError in its first iteration, having
      popped at most that iteration's row. */
  lemma FaultAbsent(fault: Fault, iter: nat, tbuf: seq<Line>, a: Assembled)
    requires fault != IOErrorAt(iter) && a.stop != ReadFailure
    requires |a.tbuf| == |tbuf| || (a.stop == BatchFull && |a.tbuf| + 1 == |tbuf|)
    ensures FaultTimed(fault, iter, |tbuf|, a)
  {
  }

  /** The iteration numbering of the rest of the loop, seen from one
      iteration earlier. */
  lemma FaultStep(fault: Fault, iter: nat, tbuf: seq<Line>, a: Assembled)
    requires tbuf != [] && fault != IOErrorAt(iter)
    requires FaultTimed(fault, iter + 1, |DropLast(tbuf)|, a)
    ensures FaultTimed(fault, iter, |tbuf|, a)
  {
    assert |DropLast(tbuf)| == |tbuf| - 1;
  }

  /** Growth: sources, target and rows grow together and only by appending,
      and the target buffer is only ever shortened at its tail. */
  lemma {:induction false} AssembleGrows(st: Settings, fault: Fault, sbufs: seq<seq<Line>>, tbuf: seq<Line>,
                                         sources: seq<seq<SourceCode>>, target: seq<seq<nat>>, rows: seq<nat>, iter: nat)
    requires |sources| == |target| == |rows|
    ensures var a := Assemble(st, fault, sbufs, tbuf, sources, target, rows, iter);
      |a.sources| == |a.target| == |a.rows| >= |rows| &&
      a.sources[..|sources|] == sources && a.target[..|target|] == target && a.rows[..|rows|] == rows &&
      |a.tbuf| <= |tbuf| && a.tbuf == tbuf[..|a.tbuf|] && |a.sbufs| == |sbufs|
    decreases |tbuf|, 1
  {
    PopFrame(st.sourceDicts, sbufs, 0, []);
    if fault != IOErrorAt(iter) && tbuf != [] && PopSources(st.sourceDicts, sbufs, 0, []).AllPopped? {
      GrowsNext(st, fault, sbufs, tbuf, sources, target, rows, iter);
    }
  }

  lemma {:induction false} GrowsNext(st: Settings, fault: Fault, sbufs: seq<seq<Line>>, tbuf: seq<Line>,
                                     sources: seq<seq<SourceCode>>, target: seq<seq<nat>>, rows: seq<nat>, iter: nat)
    requires |sources| == |target| == |rows|
    requires fault != IOErrorAt(iter) && tbuf != [] && PopSources(st.sourceDicts, sbufs, 0, []).AllPopped?
    ensures var a := Assemble(st, fault, sbufs, tbuf, sources, target, rows, iter);
      |a.sources| == |a.target| == |a.rows| >= |rows| &&
      a.sources[..|sources|] == sources && a.target[..|target|] == target && a.rows[..|rows|] == rows &&
      |a.tbuf| <= |tbuf| && a.tbuf == tbuf[..|a.tbuf|] && |a.sbufs| == |sbufs|
    decreases |tbuf|, 0
  {
    var pop := PopSources(st.sourceDicts, sbufs, 0, []);
    PopFrame(st.sourceDicts, sbufs, 0, []);
    var t := EncodeTarget(Last(tbuf), st.targetDict, st.nWordsTarget);
    var tb := DropLast(tbuf);
    var a := Assemble(st, fault, sbufs, tbuf, sources, target, rows, iter);
    var jl := JointlyLong(pop.codes, t, st.maxlen);
    var s', t', r' := sources + [pop.codes], target + [t], rows + [|tbuf| - 1];
    if jl || !(|s'| >= st.batchSize || |t'| >= st.batchSize) {
      var s2, t2, r2 := if jl then sources else s', if jl then target else t', if jl then rows else r';
      assert a == Assemble(st, fault, pop.sbufs, tb, s2, t2, r2, iter + 1);
      AssembleGrows(st, fault, pop.sbufs, tb, s2, t2, r2, iter + 1);
      GrowsStep(sources, target, rows, s2, t2, r2, tbuf, a);
    } else {
      assert a == Assembled(s', t', r', pop.sbufs, tb, BatchFull);
      GrowsStep(sources, target, rows, s', t', r', tbuf, a);
    }
  }

  /** Prefixes of prefixes: what one iteration appended and what the rest of
      the loop appends together extend the batch so far. */
  lemma GrowsStep(sources: seq<seq<SourceCode>>, target: seq<seq<nat>>, rows: seq<nat>,
                  sources': seq<seq<SourceCode>>, target': seq<seq<nat>>, rows': seq<nat>, tbuf: seq<Line>, a: Assembled)
    requires tbuf != []
    requires |sources| == |target| == |rows| && |sources'| == |target'| == |rows'| >= |rows|
    requires sources'[..|sources|] == sources && target'[..|target|] == target && rows'[..|rows|] == rows
    requires |a.sources| == |a.target| == |a.rows| >= |rows'|
    requires a.sources[..|sources'|] == sources' && a.target[..|target'|] == target' && a.rows[..|rows'|] == rows'
    requires |a.tbuf| <= |tbuf| - 1 && a.tbuf == DropLast(tbuf)[..|a.tbuf|]
    ensures a.sources[..|sources|] == sources && a.target[..|target|] == target && a.rows[..|rows|] == rows
    ensures a.tbuf == tbuf[..|a.tbuf|]
  {
    assert a.sources[..|sources|] == a.sources[..|sources'|][..|sources|];
    assert a.target[..|target|] == a.target[..|target'|][..|target|];
    assert a.rows[..|rows|] == a.rows[..|rows'|][..|rows|];
  }

  /** Batch size: a batch that had room ends with at most `batch_size`
      examples (one, if `batch_size` is not positive), and has exactly that
      many precisely when it stopped because it was full. */
  lemma {:induction false} AssembleShape(st: Settings, fault: Fault, sbufs: seq<seq<Line>>, tbuf: seq<Line>,
                                         sources: seq<seq<SourceCode>>, target: seq<seq<nat>>, rows: seq<nat>, iter: nat)
    requires |sources| == |target| == |rows| && Room(st, |target|)
    ensures var a := Assemble(st, fault, sbufs, tbuf, sources, target, rows, iter);
      |a.target| <= BatchCap(st) && (a.stop == BatchFull <==> |a.target| == BatchCap(st))
    decreases |tbuf|
  {
    if fault != IOErrorAt(iter) {
      var pop := PopSources(st.sourceDicts, sbufs, 0, []);
      if pop.AllPopped? && tbuf != [] {
        var t := EncodeTarget(Last(tbuf), st.targetDict, st.nWordsTarget);
        var tb := DropLast(tbuf);
        if JointlyLong(pop.codes, t, st.maxlen) {
          AssembleShape(st, fault, pop.sbufs, tb, sources, target, rows, iter + 1);
        } else {
          var s', t', r' := sources + [pop.codes], target + [t], rows + [|tbuf| - 1];
          if !(|s'| >= st.batchSize || |t'| >= st.batchSize) {
            AssembleShape(st, fault, pop.sbufs, tb, s', t', r', iter + 1);
          }
        }
      }
    }
  }

  /** Provenance: each example the loop adds was popped from a position of the
      target buffer in the popped range; its target encoding is that of the
      target line there and its source encodings are those of the source lines
      aligned with it. */
  lemma {:induction false} AssembleProvenance(st: Settings, fault: Fault, sbufs: seq<seq<Line>>, tbuf: seq<Line>,
                                              sources: seq<seq<SourceCode>>, target: seq<seq<nat>>, rows: seq<nat>, iter: nat)
    requires Covers(sbufs, tbuf)
    requires |sources| == |target| == |rows|
    ensures var a := Assemble(st, fault, sbufs, tbuf, sources, target, rows, iter);
      |a.sources| == |a.target| == |a.rows| >= |rows| && |a.tbuf| <= |tbuf| &&
      forall j :: |rows| <= j < |a.rows| ==>
        |a.tbuf| <= a.rows[j] < |tbuf| &&
        a.target[j] == EncodeTarget(tbuf[a.rows[j]], st.targetDict, st.nWordsTarget) &&
        RowCodes(st, sbufs, tbuf, a.rows[j]) == Some(a.sources[j])
    decreases |tbuf|, 2
  {
    AssembleGrows(st, fault, sbufs, tbuf, sources, target, rows, iter);
    if fault != IOErrorAt(iter) && tbuf != [] {
      var pop := PopSources(st.sourceDicts, sbufs, 0, []);
      if pop.AllPopped? {
        var t := EncodeTarget(Last(tbuf), st.targetDict, st.nWordsTarget);
        if JointlyLong(pop.codes, t, st.maxlen) {
          ProvenanceSkipped(st, fault, sbufs, tbuf, sources, target, rows, iter);
        } else {
          ProvenanceTaken(st, fault, sbufs, tbuf, sources, target, rows, iter);
        }
      }
    }
  }

  lemma {:induction false} ProvenanceSkipped(st: Settings, fault: Fault, sbufs: seq<seq<Line>>, tbuf: seq<Line>,
                                             sources: seq<seq<SourceCode>>, target: seq<seq<nat>>, rows: seq<nat>, iter: nat)
    requires Covers(sbufs, tbuf)
    requires |sources| == |target| == |rows|
    requires fault != IOErrorAt(iter) && tbuf != [] && PopSources(st.sourceDicts, sbufs, 0, []).AllPopped?
    requires var pop := PopSources(st.sourceDicts, sbufs, 0, []);
      JointlyLong(pop.codes, EncodeTarget(Last(tbuf), st.targetDict, st.nWordsTarget), st.maxlen)
    ensures var a := Assemble(st, fault, sbufs, tbuf, sources, target, rows, iter);
      |a.sources| == |a.target| == |a.rows| >= |rows| && |a.tbuf| <= |tbuf| &&
      forall j :: |rows| <= j < |a.rows| ==>
        |a.tbuf| <= a.rows[j] < |tbuf| &&
        a.target[j] == EncodeTarget(tbuf[a.rows[j]], st.targetDict, st.nWordsTarget) &&
        RowCodes(st, sbufs, tbuf, a.rows[j]) == Some(a.sources[j])
    decreases |tbuf|, 0
  {
    var pop := PopSources(st.sourceDicts, sbufs, 0, []);
    var tb := DropLast(tbuf);
    OneRow(st, sbufs, tbuf);
    var a := Assemble(st, fault, sbufs, tbuf, sources, target, rows, iter);
    assert a == Assemble(st, fault, pop.sbufs, tb, sources, target, rows, iter + 1);
    AssembleProvenance(st, fault, pop.sbufs, tb, sources, target, rows, iter + 1);
    forall j | |rows| <= j < |a.rows|
      ensures a.target[j] == EncodeTarget(tbuf[a.rows[j]], st.targetDict, st.nWordsTarget)
      ensures RowCodes(st, sbufs, tbuf, a.rows[j]) == Some(a.sources[j])
    {
      assert tb[a.rows[j]] == tbuf[a.rows[j]];
    }
  }

  lemma {:induction false} ProvenanceTaken(st: Settings, fault: Fault, sbufs: seq<seq<Line>>, tbuf: seq<Line>,
                                           sources: seq<seq<SourceCode>>, target: seq<seq<nat>>, rows: seq<nat>, iter: nat)
    requires Covers(sbufs, tbuf)
    requires |sources| == |target| == |rows|
    requires fault != IOErrorAt(iter) && tbuf != [] && PopSources(st.sourceDicts, sbufs, 0, []).AllPopped?
    requires var pop := PopSources(st.sourceDicts, sbufs, 0, []);
      !JointlyLong(pop.codes, EncodeTarget(Last(tbuf), st.targetDict, st.nWordsTarget), st.maxlen)
    ensures var a := Assemble(st, fault, sbufs, tbuf, sources, target, rows, iter);
      |a.sources| == |a.target| == |a.rows| >= |rows| && |a.tbuf| <= |tbuf| &&
      forall j :: |rows| <= j < |a.rows| ==>
        |a.tbuf| <= a.rows[j] < |tbuf| &&
        a.target[j] == EncodeTarget(tbuf[a.rows[j]], st.targetDict, st.nWordsTarget) &&
        RowCodes(st, sbufs, tbuf, a.rows[j]) == Some(a.sources[j])
    decreases |tbuf|, 1
  {
    var pop := PopSources(st.sourceDicts, sbufs, 0, []);
    var t := EncodeTarget(Last(tbuf), st.targetDict, st.nWordsTarget);
    var top := |tbuf| - 1;
    var a := Assemble(st, fault, sbufs, tbuf, sources, target, rows, iter);
    var s', t', r' := sources + [pop.codes], target + [t], rows + [top];
    if |s'| >= st.batchSize || |t'| >= st.batchSize {
      OneRow(st, sbufs, tbuf);
      assert a == Assembled(s', t', r', pop.sbufs, DropLast(tbuf), BatchFull);
    } else {
      ProvenanceOn(st, fault, sbufs, tbuf, sources, target, rows, iter);
    }
  }

  lemma {:induction false} ProvenanceOn(st: Settings, fault: Fault, sbufs: seq<seq<Line>>, tbuf: seq<Line>,
                                        sources: seq<seq<SourceCode>>, target: seq<seq<nat>>, rows: seq<nat>, iter: nat)
    requires Covers(sbufs, tbuf)
    requires |sources| == |target| == |rows|
    requires fault != IOErrorAt(iter) && tbuf != [] && PopSources(st.sourceDicts, sbufs, 0, []).AllPopped?
    requires var pop := PopSources(st.sourceDicts, sbufs, 0, []);
      !JointlyLong(pop.codes, EncodeTarget(Last(tbuf), st.targetDict, st.nWordsTarget), st.maxlen) &&
      |sources| + 1 < st.batchSize
    ensures var a := Assemble(st, fault, sbufs, tbuf, sources, target, rows, iter);
      |a.sources| == |a.target| == |a.rows| >= |rows| && |a.tbuf| <= |tbuf| &&
      forall j :: |rows| <= j < |a.rows| ==>
        |a.tbuf| <= a.rows[j] < |tbuf| &&
        a.target[j] == EncodeTarget(tbuf[a.rows[j]], st.targetDict, st.nWordsTarget) &&
        RowCodes(st, sbufs, tbuf, a.rows[j]) == Some(a.sources[j])
    decreases |tbuf|, 0
  {
    var pop := PopSources(st.sourceDicts, sbufs, 0, []);
    var t := EncodeTarget(Last(tbuf), st.targetDict, st.nWordsTarget);
    var tb := DropLast(tbuf);
    var a := Assemble(st, fault, sbufs, tbuf, sources, target, rows, iter);
    var s', t', r' := sources + [pop.codes], target + [t], rows + [|tbuf| - 1];
    OneRow(st, sbufs, tbuf);
    assert a == Assemble(st, fault, pop.sbufs, tb, s', t', r', iter + 1);
    AssembleProvenance(st, fault, pop.sbufs, tb, s', t', r', iter + 1);
    AssembleGrows(st, fault, pop.sbufs, tb, s', t', r', iter + 1);
    assert a.rows[|rows|] == a.rows[..|r'|][|rows|];
    assert a.target[|rows|] == a.target[..|t'|][|rows|];
    assert a.sources[|rows|] == a.sources[..|s'|][|rows|];
    ProvenanceStep(st, sbufs, tbuf, pop.sbufs, pop.codes, rows, a);
  }

  /** The popped example comes first, from the popped position; the later
      ones keep the provenance the rest of the loop gave them. */
  lemma ProvenanceStep(st: Settings, sbufs: seq<seq<Line>>, tbuf: seq<Line>, sbufs': seq<seq<Line>>,
                       codes: seq<SourceCode>, rows: seq<nat>, a: Assembled)
    requires Covers(sbufs, tbuf) && tbuf != [] && Covers(sbufs', DropLast(tbuf))
    requires RowCodes(st, sbufs, tbuf, |tbuf| - 1) == Some(codes)
    requires forall p :: 0 <= p < |tbuf| - 1 ==>
      RowCodes(st, sbufs', DropLast(tbuf), p) == RowCodes(st, sbufs, tbuf, p)
    requires |a.sources| == |a.target| == |a.rows| >= |rows| + 1 && |a.tbuf| <= |tbuf| - 1
    requires a.rows[|rows|] == |tbuf| - 1 && a.sources[|rows|] == codes &&
      a.target[|rows|] == EncodeTarget(Last(tbuf), st.targetDict, st.nWordsTarget)
    requires forall j :: |rows| + 1 <= j < |a.rows| ==>
      |a.tbuf| <= a.rows[j] < |tbuf| - 1 &&
      a.target[j] == EncodeTarget(DropLast(tbuf)[a.rows[j]], st.targetDict, st.nWordsTarget) &&
      RowCodes(st, sbufs', DropLast(tbuf), a.rows[j]) == Some(a.sources[j])
    ensures forall j :: |rows| <= j < |a.rows| ==>
      |a.tbuf| <= a.rows[j] < |tbuf| &&
      a.target[j] == EncodeTarget(tbuf[a.rows[j]], st.targetDict, st.nWordsTarget) &&
      RowCodes(st, sbufs, tbuf, a.rows[j]) == Some(a.sources[j])
  {
    forall j | |rows| + 1 <= j < |a.rows|
      ensures a.target[j] == EncodeTarget(tbuf[a.rows[j]], st.targetDict, st.nWordsTarget)
    {
      assert DropLast(tbuf)[a.rows[j]] == tbuf[a.rows[j]];
    }
  }

  /** The positions the loop adds lie in the popped range of the target
      buffer. */
  lemma {:induction false} AssembleRange(st: Settings, fault: Fault, sbufs: seq<seq<Line>>, tbuf: seq<Line>,
                                         sources: seq<seq<SourceCode>>, target: seq<seq<nat>>, rows: seq<nat>, iter: nat)
    requires |sources| == |target| == |rows|
    ensures var a := Assemble(st, fault, sbufs, tbuf, sources, target, rows, iter);
      |a.rows| >= |rows| && |a.tbuf| <= |tbuf| &&
      forall j :: |rows| <= j < |a.rows| ==> |a.tbuf| <= a.rows[j] < |tbuf|
    decreases |tbuf|, 2
  {
    AssembleGrows(st, fault, sbufs, tbuf, sources, target, rows, iter);
    if fault != IOErrorAt(iter) && tbuf != [] && PopSources(st.sourceDicts, sbufs, 0, []).AllPopped? {
      RangeNext(st, fault, sbufs, tbuf, sources, target, rows, iter);
    }
  }

  lemma {:induction false} RangeNext(st: Settings, fault: Fault, sbufs: seq<seq<Line>>, tbuf: seq<Line>,
                                     sources: seq<seq<SourceCode>>, target: seq<seq<nat>>, rows: seq<nat>, iter: nat)
    requires |sources| == |target| == |rows|
    requires fault != IOErrorAt(iter) && tbuf != [] && PopSources(st.sourceDicts, sbufs, 0, []).AllPopped?
    ensures var a := Assemble(st, fault, sbufs, tbuf, sources, target, rows, iter);
      |a.rows| >= |rows| && |a.tbuf| <= |tbuf| &&
      forall j :: |rows| <= j < |a.rows| ==> |a.tbuf| <= a.rows[j] < |tbuf|
    decreases |tbuf|, 1
  {
    var pop := PopSources(st.sourceDicts, sbufs, 0, []);
    if JointlyLong(pop.codes, EncodeTarget(Last(tbuf), st.targetDict, st.nWordsTarget), st.maxlen) {
      RangeSkipped(st, fault, sbufs, tbuf, sources, target, rows, iter);
    } else {
      RangeTaken(st, fault, sbufs, tbuf, sources, target, rows, iter);
    }
  }

  lemma {:induction false} RangeSkipped(st: Settings, fault: Fault, sbufs: seq<seq<Line>>, tbuf: seq<Line>,
                                        sources: seq<seq<SourceCode>>, target: seq<seq<nat>>, rows: seq<nat>, iter: nat)
    requires |sources| == |target| == |rows|
    requires fault != IOErrorAt(iter) && tbuf != [] && PopSources(st.sourceDicts, sbufs, 0, []).AllPopped?
    requires var pop := PopSources(st.sourceDicts, sbufs, 0, []);
      JointlyLong(pop.codes, EncodeTarget(Last(tbuf), st.targetDict, st.nWordsTarget), st.maxlen)
    ensures var a := Assemble(st, fault, sbufs, tbuf, sources, target, rows, iter);
      |a.rows| >= |rows| && |a.tbuf| <= |tbuf| &&
      forall j :: |rows| <= j < |a.rows| ==> |a.tbuf| <= a.rows[j] < |tbuf|
    decreases |tbuf|, 0
  {
    var pop := PopSources(st.sourceDicts, sbufs, 0, []);
    var t := EncodeTarget(Last(tbuf), st.targetDict, st.nWordsTarget);
    var tb := DropLast(tbuf);
    var a := Assemble(st, fault, sbufs, tbuf, sources, target, rows, iter);
    assert a == Assemble(st, fault, pop.sbufs, tb, sources, target, rows, iter + 1);
    AssembleRange(st, fault, pop.sbufs, tb, sources, target, rows, iter + 1);
    AssembleGrows(st, fault, pop.sbufs, tb, sources, target, rows, iter + 1);
    RangeStep(rows, rows, |tbuf|, a);
  }

  lemma {:induction false} RangeTaken(st: Settings, fault: Fault, sbufs: seq<seq<Line>>, tbuf: seq<Line>,
                                      sources: seq<seq<SourceCode>>, target: seq<seq<nat>>, rows: seq<nat>, iter: nat)
    requires |sources| == |target| == |rows|
    requires fault != IOErrorAt(iter) && tbuf != [] && PopSources(st.sourceDicts, sbufs, 0, []).AllPopped?
    requires var pop := PopSources(st.sourceDicts, sbufs, 0, []);
      !JointlyLong(pop.codes, EncodeTarget(Last(tbuf), st.targetDict, st.nWordsTarget), st.maxlen)
    ensures var a := Assemble(st, fault, sbufs, tbuf, sources, target, rows, iter);
      |a.rows| >= |rows| && |a.tbuf| <= |tbuf| &&
      forall j :: |rows| <= j < |a.rows| ==> |a.tbuf| <= a.rows[j] < |tbuf|
    decreases |tbuf|, 0
  {
    var pop := PopSources(st.sourceDicts, sbufs, 0, []);
    var t := EncodeTarget(Last(tbuf), st.targetDict, st.nWordsTarget);
    var tb := DropLast(tbuf);
    var a := Assemble(st, fault, sbufs, tbuf, sources, target, rows, iter);
    var top: nat := |tbuf| - 1;
    var s', t', r' := sources + [pop.codes], target + [t], rows + [top];
    if |s'| >= st.batchSize || |t'| >= st.batchSize {
      assert a == Assembled(s', t', r', pop.sbufs, tb, BatchFull);
    } else {
      assert a == Assemble(st, fault, pop.sbufs, tb, s', t', r', iter + 1);
      AssembleRange(st, fault, pop.sbufs, tb, s', t', r', iter + 1);
      AssembleGrows(st, fault, pop.sbufs, tb, s', t', r', iter + 1);
      RangeStep(rows, r', |tbuf|, a);
    }
  }

  /** The positions added after this iteration lie below the popped one, which
      is itself in the popped range. */
  lemma RangeStep(rows: seq<nat>, rows': seq<nat>, n: nat, a: Assembled)
    requires n > 0 && (rows' == rows || rows' == rows + [n - 1])
    requires |a.rows| >= |rows'| && a.rows[..|rows'|] == rows' && |a.tbuf| <= n - 1
    requires forall j :: |rows'| <= j < |a.rows| ==> |a.tbuf| <= a.rows[j] < n - 1
    ensures forall j :: |rows| <= j < |a.rows| ==> |a.tbuf| <= a.rows[j] < n
  {
    forall j | |rows| <= j < |a.rows| ensures |a.tbuf| <= a.rows[j] < n {
      if j < |rows'| {
        assert a.rows[j] == a.rows[..|rows'|][j] == rows'[j] == n - 1;
      }
    }
  }

  /** Order: the examples are popped strictly from the tail of the target
      buffer towards its head. */
  lemma {:induction false} AssembleOrder(st: Settings, fault: Fault, sbufs: seq<seq<Line>>, tbuf: seq<Line>,
                                         sources: seq<seq<SourceCode>>, target: seq<seq<nat>>, rows: seq<nat>, iter: nat)
    requires |sources| == |target| == |rows|
    ensures var a := Assemble(st, fault, sbufs, tbuf, sources, target, rows, iter);
      |a.rows| >= |rows| &&
      forall j, j' :: |rows| <= j < j' < |a.rows| ==> a.rows[j] > a.rows[j']
    decreases |tbuf|, 1
  {
    AssembleGrows(st, fault, sbufs, tbuf, sources, target, rows, iter);
    if fault != IOErrorAt(iter) && tbuf != [] && PopSources(st.sourceDicts, sbufs, 0, []).AllPopped? {
      OrderNext(st, fault, sbufs, tbuf, sources, target, rows, iter);
    }
  }

  lemma {:induction false} OrderNext(st: Settings, fault: Fault, sbufs: seq<seq<Line>>, tbuf: seq<Line>,
                                     sources: seq<seq<SourceCode>>, target: seq<seq<nat>>, rows: seq<nat>, iter: nat)
    requires |sources| == |target| == |rows|
    requires fault != IOErrorAt(iter) && tbuf != [] && PopSources(st.sourceDicts, sbufs, 0, []).AllPopped?
    ensures var a := Assemble(st, fault, sbufs, tbuf, sources, target, rows, iter);
      |a.rows| >= |rows| &&
      forall j, j' :: |rows| <= j < j' < |a.rows| ==> a.rows[j] > a.rows[j']
    decreases |tbuf|, 0
  {
    var pop := PopSources(st.sourceDicts, sbufs, 0, []);
    var t := EncodeTarget(Last(tbuf), st.targetDict, st.nWordsTarget);
    var tb := DropLast(tbuf);
    var a := Assemble(st, fault, sbufs, tbuf, sources, target, rows, iter);
    var top: nat := |tbuf| - 1;
    var s', t', r' := sources + [pop.codes], target + [t], rows + [top];
    if JointlyLong(pop.codes, t, st.maxlen) {
      assert a == Assemble(st, fault, pop.sbufs, tb, sources, target, rows, iter + 1);
      AssembleOrder(st, fault, pop.sbufs, tb, sources, target, rows, iter + 1);
    } else if !(|s'| >= st.batchSize || |t'| >= st.batchSize) {
      assert a == Assemble(st, fault, pop.sbufs, tb, s', t', r', iter + 1);
      AssembleOrder(st, fault, pop.sbufs, tb, s', t', r', iter + 1);
      AssembleRange(st, fault, pop.sbufs, tb, s', t', r', iter + 1);
      AssembleGrows(st, fault, pop.sbufs, tb, s', t', r', iter + 1);
      OrderStep(rows, r', |tbuf|, a.rows);
    } else {
      assert a == Assembled(s', t', r', pop.sbufs, tb, BatchFull);
    }
  }

  /** The popped position, if taken, lies above every later one. */
  lemma OrderStep(rows: seq<nat>, rows': seq<nat>, n: nat, all: seq<nat>)
    requires n > 0 && rows' == rows + [n - 1]
    requires |all| >= |rows'| && all[..|rows'|] == rows'
    requires forall j :: |rows'| <= j < |all| ==> all[j] < n - 1
    requires forall j, j' :: |rows'| <= j < j' < |all| ==> all[j] > all[j']
    ensures forall j, j' :: |rows| <= j < j' < |all| ==> all[j] > all[j']
  {
    assert all[|rows|] == all[..|rows'|][|rows|] == n - 1;
  }

  /** After a complete iteration, the remaining positions keep or drop their
      examples as before, and the popped one is kept unless it is too long. */
  lemma KeptAfterPop(st: Settings, sbufs: seq<seq<Line>>, tbuf: seq<Line>, p: nat)
    requires Covers(sbufs, tbuf) && p < |tbuf|
    requires PopSources(st.sourceDicts, sbufs, 0, []).AllPopped?
    ensures var r := PopSources(st.sourceDicts, sbufs, 0, []);
      Covers(r.sbufs, DropLast(tbuf)) &&
      (p < |tbuf| - 1 ==> Kept(st, r.sbufs, DropLast(tbuf), p) == Kept(st, sbufs, tbuf, p)) &&
      (p == |tbuf| - 1 ==> (Kept(st, sbufs, tbuf, p) <==>
        !JointlyLong(r.codes, EncodeTarget(Last(tbuf), st.targetDict, st.nWordsTarget), st.maxlen)))
  {
    OneRow(st, sbufs, tbuf);
    if p < |tbuf| - 1 {
      assert DropLast(tbuf)[p] == tbuf[p];
    }
  }

  /** Filtering is exact: a position in the popped range of the target buffer
      went into the batch precisely when its example encodes and is not too
      long; every other popped example is silently dropped. */
  lemma {:induction false} AssembleKeeps(st: Settings, fault: Fault, sbufs: seq<seq<Line>>, tbuf: seq<Line>,
                                         sources: seq<seq<SourceCode>>, target: seq<seq<nat>>, rows: seq<nat>, iter: nat)
    requires Covers(sbufs, tbuf)
    requires |sources| == |target| == |rows|
    ensures var a := Assemble(st, fault, sbufs, tbuf, sources, target, rows, iter);
      |a.rows| >= |rows| && |a.tbuf| <= |tbuf| &&
      forall p :: |a.tbuf| <= p < |tbuf| ==> (Kept(st, sbufs, tbuf, p) <==> p in a.rows[|rows|..])
    decreases |tbuf|, 2
  {
    AssembleGrows(st, fault, sbufs, tbuf, sources, target, rows, iter);
    if fault != IOErrorAt(iter) && tbuf != [] {
      var pop := PopSources(st.sourceDicts, sbufs, 0, []);
      if pop.AllPopped? {
        var t := EncodeTarget(Last(tbuf), st.targetDict, st.nWordsTarget);
        if JointlyLong(pop.codes, t, st.maxlen) {
          KeepsSkipped(st, fault, sbufs, tbuf, sources, target, rows, iter);
        } else {
          KeepsTaken(st, fault, sbufs, tbuf, sources, target, rows, iter);
        }
      }
    }
  }

  lemma {:induction false} KeepsSkipped(st: Settings, fault: Fault, sbufs: seq<seq<Line>>, tbuf: seq<Line>,
                                         sources: seq<seq<SourceCode>>, target: seq<seq<nat>>, rows: seq<nat>, iter: nat)
    requires Covers(sbufs, tbuf)
    requires |sources| == |target| == |rows|
    requires fault != IOErrorAt(iter) && tbuf != [] && PopSources(st.sourceDicts, sbufs, 0, []).AllPopped?
    requires var pop := PopSources(st.sourceDicts, sbufs, 0, []);
      JointlyLong(pop.codes, EncodeTarget(Last(tbuf), st.targetDict, st.nWordsTarget), st.maxlen)
    ensures var a := Assemble(st, fault, sbufs, tbuf, sources, target, rows, iter);
      |a.rows| >= |rows| && |a.tbuf| <= |tbuf| &&
      forall p :: |a.tbuf| <= p < |tbuf| ==> (Kept(st, sbufs, tbuf, p) <==> p in a.rows[|rows|..])
    decreases |tbuf|, 0
  {
    AssembleGrows(st, fault, sbufs, tbuf, sources, target, rows, iter);
    var a := Assemble(st, fault, sbufs, tbuf, sources, target, rows, iter);
    var pop := PopSources(st.sourceDicts, sbufs, 0, []);
    var tb := DropLast(tbuf);
    var top := |tbuf| - 1;
    KeptAfterPop(st, sbufs, tbuf, top);
    var b := Assemble(st, fault, pop.sbufs, tb, sources, target, rows, iter + 1);
    assert a == b;
    AssembleKeeps(st, fault, pop.sbufs, tb, sources, target, rows, iter + 1);
    AssembleRange(st, fault, pop.sbufs, tb, sources, target, rows, iter + 1);
    TailBelow(a.rows, |rows|, top);
    forall p | |a.tbuf| <= p < |tbuf|
      ensures Kept(st, sbufs, tbuf, p) <==> p in a.rows[|rows|..]
    {
      KeptAfterPop(st, sbufs, tbuf, p);
    }
  }

  lemma {:induction false} KeepsTaken(st: Settings, fault: Fault, sbufs: seq<seq<Line>>, tbuf: seq<Line>,
                                         sources: seq<seq<SourceCode>>, target: seq<seq<nat>>, rows: seq<nat>, iter: nat)
    requires Covers(sbufs, tbuf)
    requires |sources| == |target| == |rows|
    requires fault != IOErrorAt(iter) && tbuf != [] && PopSources(st.sourceDicts, sbufs, 0, []).AllPopped?
    requires var pop := PopSources(st.sourceDicts, sbufs, 0, []);
      !JointlyLong(pop.codes, EncodeTarget(Last(tbuf), st.targetDict, st.nWordsTarget), st.maxlen)
    ensures var a := Assemble(st, fault, sbufs, tbuf, sources, target, rows, iter);
      |a.rows| >= |rows| && |a.tbuf| <= |tbuf| &&
      forall p :: |a.tbuf| <= p < |tbuf| ==> (Kept(st, sbufs, tbuf, p) <==> p in a.rows[|rows|..])
    decreases |tbuf|, 1
  {
    var a := Assemble(st, fault, sbufs, tbuf, sources, target, rows, iter);
    var pop := PopSources(st.sourceDicts, sbufs, 0, []);
    var t := EncodeTarget(Last(tbuf), st.targetDict, st.nWordsTarget);
    var s', t', r' := sources + [pop.codes], target + [t], rows + [|tbuf| - 1];
    KeptAfterPop(st, sbufs, tbuf, |tbuf| - 1);
    if |s'| >= st.batchSize || |t'| >= st.batchSize {
      assert a == Assembled(s', t', r', pop.sbufs, DropLast(tbuf), BatchFull);
      KeepsLast(st, sbufs, tbuf, rows, a);
    } else {
      KeepsOn(st, fault, sbufs, tbuf, sources, target, rows, iter);
    }
  }

  /** A full batch after the popped example: only that position is taken. */
  lemma KeepsLast(st: Settings, sbufs: seq<seq<Line>>, tbuf: seq<Line>, rows: seq<nat>, a: Assembled)
    requires Covers(sbufs, tbuf) && tbuf != [] && Kept(st, sbufs, tbuf, |tbuf| - 1)
    requires a.rows == rows + [|tbuf| - 1] && |a.tbuf| == |tbuf| - 1
    ensures forall p :: |a.tbuf| <= p < |tbuf| ==> (Kept(st, sbufs, tbuf, p) <==> p in a.rows[|rows|..])
  {
    assert a.rows[|rows|..] == [|tbuf| - 1];
  }

  lemma {:induction false} KeepsOn(st: Settings, fault: Fault, sbufs: seq<seq<Line>>, tbuf: seq<Line>,
                                   sources: seq<seq<SourceCode>>, target: seq<seq<nat>>, rows: seq<nat>, iter: nat)
    requires Covers(sbufs, tbuf)
    requires |sources| == |target| == |rows|
    requires fault != IOErrorAt(iter) && tbuf != [] && PopSources(st.sourceDicts, sbufs, 0, []).AllPopped?
    requires var pop := PopSources(st.sourceDicts, sbufs, 0, []);
      !JointlyLong(pop.codes, EncodeTarget(Last(tbuf), st.targetDict, st.nWordsTarget), st.maxlen) &&
      |sources| + 1 < st.batchSize
    ensures var a := Assemble(st, fault, sbufs, tbuf, sources, target, rows, iter);
      |a.rows| >= |rows| && |a.tbuf| <= |tbuf| &&
      forall p :: |a.tbuf| <= p < |tbuf| ==> (Kept(st, sbufs, tbuf, p) <==> p in a.rows[|rows|..])
    decreases |tbuf|, 0
  {
    var a := Assemble(st, fault, sbufs, tbuf, sources, target, rows, iter);
    var pop := PopSources(st.sourceDicts, sbufs, 0, []);
    var t := EncodeTarget(Last(tbuf), st.targetDict, st.nWordsTarget);
    var tb := DropLast(tbuf);
    var s', t', r' := sources + [pop.codes], target + [t], rows + [|tbuf| - 1];
    assert a == Assemble(st, fault, pop.sbufs, tb, s', t', r', iter + 1);
    KeptShift(st, sbufs, tbuf);
    AssembleKeeps(st, fault, pop.sbufs, tb, s', t', r', iter + 1);
    AssembleRange(st, fault, pop.sbufs, tb, s', t', r', iter + 1);
    AssembleGrows(st, fault, pop.sbufs, tb, s', t', r', iter + 1);
    assert a.rows[|rows|] == a.rows[..|r'|][|rows|];
    KeepsStep(st, sbufs, tbuf, pop.sbufs, rows, a);
  }

  /** The positions below the popped one keep their verdict after the pop. */
  lemma KeptShift(st: Settings, sbufs: seq<seq<Line>>, tbuf: seq<Line>)
    requires Covers(sbufs, tbuf) && tbuf != []
    requires PopSources(st.sourceDicts, sbufs, 0, []).AllPopped?
    ensures var r := PopSources(st.sourceDicts, sbufs, 0, []);
      Covers(r.sbufs, DropLast(tbuf)) &&
      (forall p :: 0 <= p < |tbuf| - 1 ==> Kept(st, r.sbufs, DropLast(tbuf), p) == Kept(st, sbufs, tbuf, p)) &&
      (Kept(st, sbufs, tbuf, |tbuf| - 1) <==>
        !JointlyLong(r.codes, EncodeTarget(Last(tbuf), st.targetDict, st.nWordsTarget), st.maxlen))
  {
    KeptAfterPop(st, sbufs, tbuf, |tbuf| - 1);
    forall p | 0 <= p < |tbuf| - 1 {
      KeptAfterPop(st, sbufs, tbuf, p);
    }
  }

  /** The popped position was taken first, the later ones lie below it. */
  lemma KeepsStep(st: Settings, sbufs: seq<seq<Line>>, tbuf: seq<Line>, sbufs': seq<seq<Line>>, rows: seq<nat>, a: Assembled)
    requires Covers(sbufs, tbuf) && tbuf != [] && Covers(sbufs', DropLast(tbuf))
    requires Kept(st, sbufs, tbuf, |tbuf| - 1)
    requires forall p :: 0 <= p < |tbuf| - 1 ==> Kept(st, sbufs', DropLast(tbuf), p) == Kept(st, sbufs, tbuf, p)
    requires |a.rows| >= |rows| + 1 && a.rows[|rows|] == |tbuf| - 1 && |a.tbuf| <= |tbuf| - 1
    requires forall j :: |rows| + 1 <= j < |a.rows| ==> a.rows[j] < |tbuf| - 1
    requires forall p :: |a.tbuf| <= p < |tbuf| - 1 ==> (Kept(st, sbufs', DropLast(tbuf), p) <==> p in a.rows[|rows| + 1..])
    ensures forall p :: |a.tbuf| <= p < |tbuf| ==> (Kept(st, sbufs, tbuf, p) <==> p in a.rows[|rows|..])
  {
    var top := |tbuf| - 1;
    assert a.rows[|rows|..] == [top] + a.rows[|rows| + 1..];
    TailBelow(a.rows, |rows| + 1, top);
  }

  lemma TailBelow(s: seq<nat>, n: nat, x: nat)
    requires n <= |s|
    requires forall j :: n <= j < |s| ==> s[j] < x
    ensures x !in s[n..]
  {
    forall j | 0 <= j < |s| - n ensures s[n..][j] != x {
      assert s[n..][j] == s[n + j];
    }
  }

  /** What is left in the buffers: when the batch is full or reading failed,
      every buffer has been cut back at its tail by the same number of
      entries, so the alignment of what remains is unchanged; when a source
      buffer ran dry or the target buffer underflowed, nothing is left in the
      target buffer. */
  lemma {:induction false} AssembleCut(st: Settings, fault: Fault, sbufs: seq<seq<Line>>, tbuf: seq<Line>,
                                       sources: seq<seq<SourceCode>>, target: seq<seq<nat>>, rows: seq<nat>, iter: nat)
    requires Covers(sbufs, tbuf)
    ensures var a := Assemble(st, fault, sbufs, tbuf, sources, target, rows, iter);
      |a.sbufs| == |sbufs| && |a.tbuf| <= |tbuf| &&
      (a.stop in {Drained, TargetUnderflow} ==> a.tbuf == []) &&
      (a.stop in {BatchFull, ReadFailure} ==>
        forall i :: 0 <= i < |sbufs| ==> a.sbufs[i] == sbufs[i][..|sbufs[i]| - (|tbuf| - |a.tbuf|)])
    decreases |tbuf|, 1
  {
    PopFrame(st.sourceDicts, sbufs, 0, []);
    if fault == IOErrorAt(iter) {
      assert forall i :: 0 <= i < |sbufs| ==> sbufs[i] == sbufs[i][..|sbufs[i]|];
    } else {
      var pop := PopSources(st.sourceDicts, sbufs, 0, []);
      if pop.SourceEmpty? {
        PopIncomplete(st.sourceDicts, sbufs, 0, []);
        var i :| 0 <= i < |sbufs| && sbufs[i] == [];
      } else if pop.AllPopped? && tbuf != [] {
        CutNext(st, fault, sbufs, tbuf, sources, target, rows, iter);
      }
    }
  }

  lemma {:induction false} CutNext(st: Settings, fault: Fault, sbufs: seq<seq<Line>>, tbuf: seq<Line>,
                                   sources: seq<seq<SourceCode>>, target: seq<seq<nat>>, rows: seq<nat>, iter: nat)
    requires Covers(sbufs, tbuf)
    requires fault != IOErrorAt(iter) && tbuf != [] && PopSources(st.sourceDicts, sbufs, 0, []).AllPopped?
    ensures var a := Assemble(st, fault, sbufs, tbuf, sources, target, rows, iter);
      |a.sbufs| == |sbufs| && |a.tbuf| <= |tbuf| &&
      (a.stop in {Drained, TargetUnderflow} ==> a.tbuf == []) &&
      (a.stop in {BatchFull, ReadFailure} ==>
        forall i :: 0 <= i < |sbufs| ==> a.sbufs[i] == sbufs[i][..|sbufs[i]| - (|tbuf| - |a.tbuf|)])
    decreases |tbuf|, 0
  {
    var pop := PopSources(st.sourceDicts, sbufs, 0, []);
    PopComplete(st.sourceDicts, sbufs, 0, []);
    PopCovers(st.sourceDicts, sbufs, tbuf);
    var t := EncodeTarget(Last(tbuf), st.targetDict, st.nWordsTarget);
    var tb := DropLast(tbuf);
    var a := Assemble(st, fault, sbufs, tbuf, sources, target, rows, iter);
    var jl := JointlyLong(pop.codes, t, st.maxlen);
    var s', t', r' := sources + [pop.codes], target + [t], rows + [|tbuf| - 1];
    if jl || !(|s'| >= st.batchSize || |t'| >= st.batchSize) {
      var s2, t2, r2 := if jl then sources else s', if jl then target else t', if jl then rows else r';
      assert a == Assemble(st, fault, pop.sbufs, tb, s2, t2, r2, iter + 1);
      AssembleCut(st, fault, pop.sbufs, tb, s2, t2, r2, iter + 1);
      CutStep(sbufs, tbuf, pop.sbufs, tb, a);
    } else {
      assert a == Assembled(s', t', r', pop.sbufs, tb, BatchFull);
      assert forall i :: 0 <= i < |pop.sbufs| ==> pop.sbufs[i] == pop.sbufs[i][..|pop.sbufs[i]|];
      CutStep(sbufs, tbuf, pop.sbufs, tb, a);
    }
  }

  /** A cut of the shortened buffers by some number of entries is a cut of
      the original ones by one more. */
  lemma CutStep(sbufs: seq<seq<Line>>, tbuf: seq<Line>, sbufs': seq<seq<Line>>, tbuf': seq<Line>, a: Assembled)
    requires Covers(sbufs, tbuf) && tbuf != [] && tbuf' == DropLast(tbuf) && |sbufs'| == |sbufs|
    requires forall i :: 0 <= i < |sbufs| ==> sbufs[i] != [] && sbufs'[i] == DropLast(sbufs[i])
    requires Covers(sbufs', tbuf') && |a.sbufs| == |sbufs'| && |a.tbuf| <= |tbuf'|
    requires a.stop in {BatchFull, ReadFailure} ==>
      forall i :: 0 <= i < |sbufs'| ==> a.sbufs[i] == sbufs'[i][..|sbufs'[i]| - (|tbuf'| - |a.tbuf|)]
    ensures a.stop in {BatchFull, ReadFailure} ==>
      forall i :: 0 <= i < |sbufs| ==> a.sbufs[i] == sbufs[i][..|sbufs[i]| - (|tbuf| - |a.tbuf|)]
  {
    if a.stop in {BatchFull, ReadFailure} {
      forall i | 0 <= i < |sbufs|
        ensures a.sbufs[i] == sbufs[i][..|sbufs[i]| - (|tbuf| - |a.tbuf|)]
      {
        assert sbufs'[i] == sbufs[i][..|sbufs[i]| - 1];
      }
    }
  }

  /** Each source buffer only ever loses entries at its tail, whatever makes
      the loop stop. */
  lemma {:induction false} AssembleShrinks(st: Settings, fault: Fault, sbufs: seq<seq<Line>>, tbuf: seq<Line>,
                                           sources: seq<seq<SourceCode>>, target: seq<seq<nat>>, rows: seq<nat>, iter: nat)
    ensures var a := Assemble(st, fault, sbufs, tbuf, sources, target, rows, iter);
      |a.sbufs| == |sbufs| &&
      forall i :: 0 <= i < |sbufs| ==> |a.sbufs[i]| <= |sbufs[i]| && a.sbufs[i] == sbufs[i][..|a.sbufs[i]|]
    decreases |tbuf|
  {
    var a := Assemble(st, fault, sbufs, tbuf, sources, target, rows, iter);
    PopAll(st.sourceDicts, sbufs);
    if fault != IOErrorAt(iter) {
      var pop := PopSources(st.sourceDicts, sbufs, 0, []);
      var tb := if tbuf == [] then [] else DropLast(tbuf);
      if pop.AllPopped? && tbuf != [] {
        var t := EncodeTarget(Last(tbuf), st.targetDict, st.nWordsTarget);
        var jl := JointlyLong(pop.codes, t, st.maxlen);
        var s', t', r' := sources + [pop.codes], target + [t], rows + [|tbuf| - 1];
        if jl || !(|s'| >= st.batchSize || |t'| >= st.batchSize) {
          var s2, t2, r2 := if jl then sources else s', if jl then target else t', if jl then rows else r';
          AssembleShrinks(st, fault, pop.sbufs, tb, s2, t2, r2, iter + 1);
          assert a == Assemble(st, fault, pop.sbufs, tb, s2, t2, r2, iter + 1);
        }
      }
      forall i | 0 <= i < |sbufs|
        ensures |a.sbufs[i]| <= |sbufs[i]| && a.sbufs[i] == sbufs[i][..|a.sbufs[i]|]
      {
        assert pop.sbufs[i] == sbufs[i][..|pop.sbufs[i]|];
      }
    }
  }

  /** A source token with too many factors stops the loop at the last target
      position still in the buffer: one of the source lines aligned with it
      does not encode. */
  lemma {:induction false} AssembleBadRow(st: Settings, fault: Fault, sbufs: seq<seq<Line>>, tbuf: seq<Line>,
                                       sources: seq<seq<SourceCode>>, target: seq<seq<nat>>, rows: seq<nat>, iter: nat)
    requires Covers(sbufs, tbuf)
    ensures var a := Assemble(st, fault, sbufs, tbuf, sources, target, rows, iter);
      |a.tbuf| <= |tbuf| &&
      (a.stop == TooManyFactors && a.tbuf != [] ==> RowCodes(st, sbufs, tbuf, |a.tbuf| - 1).None?)
    decreases |tbuf|, 1
  {
    if fault != IOErrorAt(iter) && tbuf != [] {
      var pop := PopSources(st.sourceDicts, sbufs, 0, []);
      if pop.AllPopped? {
        BadRowNext(st, fault, sbufs, tbuf, sources, target, rows, iter);
      } else if pop.BadFactors? {
        BadRowHere(st, sbufs, tbuf);
      }
    }
  }

  lemma {:induction false} BadRowNext(st: Settings, fault: Fault, sbufs: seq<seq<Line>>, tbuf: seq<Line>,
                                      sources: seq<seq<SourceCode>>, target: seq<seq<nat>>, rows: seq<nat>, iter: nat)
    requires Covers(sbufs, tbuf)
    requires fault != IOErrorAt(iter) && tbuf != [] && PopSources(st.sourceDicts, sbufs, 0, []).AllPopped?
    ensures var a := Assemble(st, fault, sbufs, tbuf, sources, target, rows, iter);
      |a.tbuf| <= |tbuf| &&
      (a.stop == TooManyFactors && a.tbuf != [] ==> RowCodes(st, sbufs, tbuf, |a.tbuf| - 1).None?)
    decreases |tbuf|, 0
  {
    var pop := PopSources(st.sourceDicts, sbufs, 0, []);
    PopCovers(st.sourceDicts, sbufs, tbuf);
    var t := EncodeTarget(Last(tbuf), st.targetDict, st.nWordsTarget);
    var tb := DropLast(tbuf);
    var a := Assemble(st, fault, sbufs, tbuf, sources, target, rows, iter);
    var jl := JointlyLong(pop.codes, t, st.maxlen);
    var s', t', r' := sources + [pop.codes], target + [t], rows + [|tbuf| - 1];
    if jl || !(|s'| >= st.batchSize || |t'| >= st.batchSize) {
      var s2, t2, r2 := if jl then sources else s', if jl then target else t', if jl then rows else r';
      assert a == Assemble(st, fault, pop.sbufs, tb, s2, t2, r2, iter + 1);
      AssembleBadRow(st, fault, pop.sbufs, tb, s2, t2, r2, iter + 1);
      BadRowLater(st, sbufs, tbuf, a);
    } else {
      assert a == Assembled(s', t', r', pop.sbufs, tb, BatchFull);
    }
  }

  /** A complete pop keeps every source buffer covering the shortened target
      buffer. */
  lemma PopCovers(dicts: seq<seq<Vocab>>, sbufs: seq<seq<Line>>, tbuf: seq<Line>)
    requires Covers(sbufs, tbuf) && tbuf != []
    requires PopSources(dicts, sbufs, 0, []).AllPopped?
    ensures Covers(PopSources(dicts, sbufs, 0, []).sbufs, DropLast(tbuf))
  {
    PopComplete(dicts, sbufs, 0, []);
  }

  /** A pop that meets a line that does not encode stops at the last target
      position. */
  lemma BadRowHere(st: Settings, sbufs: seq<seq<Line>>, tbuf: seq<Line>)
    requires Covers(sbufs, tbuf) && tbuf != []
    requires PopSources(st.sourceDicts, sbufs, 0, []).BadFactors?
    ensures RowCodes(st, sbufs, tbuf, |tbuf| - 1).None?
  {
    PopIncomplete(st.sourceDicts, sbufs, 0, []);
    var i :| 0 <= i < |sbufs| && sbufs[i] != [] && EncodeSource(Last(sbufs[i]), DictsFor(st.sourceDicts, i)).None?;
    assert Last(sbufs[i]) == SourceAt(sbufs, tbuf, i, |tbuf| - 1);
  }

  /** A failed encoding met after a complete iteration is one of the
      positions before the popped one, at the same place in the original
      buffers. */
  lemma BadRowLater(st: Settings, sbufs: seq<seq<Line>>, tbuf: seq<Line>, b: Assembled)
    requires Covers(sbufs, tbuf) && tbuf != []
    requires PopSources(st.sourceDicts, sbufs, 0, []).AllPopped?
    requires var pop := PopSources(st.sourceDicts, sbufs, 0, []);
      Covers(pop.sbufs, DropLast(tbuf)) && |b.tbuf| <= |tbuf| - 1 &&
      (b.stop == TooManyFactors && b.tbuf != [] ==> RowCodes(st, pop.sbufs, DropLast(tbuf), |b.tbuf| - 1).None?)
    ensures b.stop == TooManyFactors && b.tbuf != [] ==> RowCodes(st, sbufs, tbuf, |b.tbuf| - 1).None?
  {
    OneRow(st, sbufs, tbuf);
  }

  /** Buffers of equal length: the target buffer cannot underflow, every
      stop but a token with too many factors leaves them equal, and a failed
      encoding never happens when every source line encodes. */
  predicate Even(sbufs: seq<seq<Line>>, tbuf: seq<Line>) {
    forall i :: 0 <= i < |sbufs| ==> |sbufs[i]| == |tbuf|
  }

  lemma {:induction false} AssembleEven(st: Settings, fault: Fault, sbufs: seq<seq<Line>>, tbuf: seq<Line>,
                                       sources: seq<seq<SourceCode>>, target: seq<seq<nat>>, rows: seq<nat>, iter: nat)
    requires Even(sbufs, tbuf) && |sbufs| > 0
    ensures var a := Assemble(st, fault, sbufs, tbuf, sources, target, rows, iter);
      a.stop != TargetUnderflow &&
      (a.stop != TooManyFactors ==> Even(a.sbufs, a.tbuf))
    decreases |tbuf|
  {
    var a := Assemble(st, fault, sbufs, tbuf, sources, target, rows, iter);
    PopAll(st.sourceDicts, sbufs);
    AssembleCut(st, fault, sbufs, tbuf, sources, target, rows, iter);
    if fault != IOErrorAt(iter) {
      var pop := PopSources(st.sourceDicts, sbufs, 0, []);
      if pop.AllPopped? && tbuf != [] {
        var t := EncodeTarget(Last(tbuf), st.targetDict, st.nWordsTarget);
        var tb := DropLast(tbuf);
        assert Even(pop.sbufs, tb);
        var jl := JointlyLong(pop.codes, t, st.maxlen);
        var s', t', r' := sources + [pop.codes], target + [t], rows + [|tbuf| - 1];
        if jl || !(|s'| >= st.batchSize || |t'| >= st.batchSize) {
          var s2, t2, r2 := if jl then sources else s', if jl then target else t', if jl then rows else r';
          AssembleEven(st, fault, pop.sbufs, tb, s2, t2, r2, iter + 1);
          assert a == Assemble(st, fault, pop.sbufs, tb, s2, t2, r2, iter + 1);
        }
      } else if pop.SourceEmpty? {
        var i :| 0 <= i < |sbufs| && sbufs[i] == [];
        assert forall i :: 0 <= i < |sbufs| ==> a.sbufs[i] == [];
      }
    }
  }

  /** When every source line encodes, assembly never stops at a token with too
      many factors. */
  lemma {:induction false} AssembleWellFactored(st: Settings, fault: Fault, sbufs: seq<seq<Line>>, tbuf: seq<Line>,
                                       sources: seq<seq<SourceCode>>, target: seq<seq<nat>>, rows: seq<nat>, iter: nat)
    requires Covers(sbufs, tbuf)
    requires forall i :: 0 <= i < |sbufs| ==> forall e :: e in sbufs[i] ==>
      EncodeSource(e, DictsFor(st.sourceDicts, i)).Some?
    ensures Assemble(st, fault, sbufs, tbuf, sources, target, rows, iter).stop != TooManyFactors
    decreases |tbuf|
  {
    PopAll(st.sourceDicts, sbufs);
    if fault != IOErrorAt(iter) {
      var pop := PopSources(st.sourceDicts, sbufs, 0, []);
      if pop.AllPopped? && tbuf != [] {
        var t := EncodeTarget(Last(tbuf), st.targetDict, st.nWordsTarget);
        var tb := DropLast(tbuf);
        assert Covers(pop.sbufs, tb);
        forall i, e | 0 <= i < |sbufs| && e in pop.sbufs[i]
          ensures EncodeSource(e, DictsFor(st.sourceDicts, i)).Some?
        {
          assert e in sbufs[i];
        }
        var jl := JointlyLong(pop.codes, t, st.maxlen);
        var s', t', r' := sources + [pop.codes], target + [t], rows + [|tbuf| - 1];
        if jl || !(|s'| >= st.batchSize || |t'| >= st.batchSize) {
          var s2, t2, r2 := if jl then sources else s', if jl then target else t', if jl then rows else r';
          AssembleWellFactored(st, fault, pop.sbufs, tb, s2, t2, r2, iter + 1);
          assert Assemble(st, fault, sbufs, tbuf, sources, target, rows, iter) ==
                 Assemble(st, fault, pop.sbufs, tb, s2, t2, r2, iter + 1);
        }
      }
    }
  }

  /** With the target buffer sorted by length (shortest first), the batch
      comes out longest target first, and no target line left in the buffer
      is longer than any line in the batch. */
  lemma LongestFirst(st: Settings, fault: Fault, sbufs: seq<seq<Line>>, tbuf: seq<Line>)
    requires Covers(sbufs, tbuf)
    requires forall p, q :: 0 <= p < q < |tbuf| ==> |tbuf[p]| <= |tbuf[q]|
    ensures var a := Assemble(st, fault, sbufs, tbuf, [], [], [], 0);
      (forall j, j' :: 0 <= j < j' < |a.target| ==> |a.target[j]| >= |a.target[j']|) &&
      (forall j, p :: 0 <= j < |a.target| && 0 <= p < |a.tbuf| ==> |a.tbuf[p]| <= |a.target[j]|)
  {
    var a := Assemble(st, fault, sbufs, tbuf, [], [], [], 0);
    AssembleGrows(st, fault, sbufs, tbuf, [], [], [], 0);
    AssembleProvenance(st, fault, sbufs, tbuf, [], [], [], 0);
    AssembleOrder(st, fault, sbufs, tbuf, [], [], [], 0);
    forall j, p | 0 <= j < |a.target| && 0 <= p < |a.tbuf|
      ensures |a.tbuf[p]| <= |a.target[j]|
    {
      assert a.tbuf[p] == tbuf[p];
    }
  }

  /** From an unsorted window with an extra source row, a token with too
      many factors can bring the buffers back to one length. Source 0 holds
      lines 1 and 0 (reversed), source 1 holds line 1 and a bad line 0, the
      target holds line 0 only. The stop leaves line 1 of both sources
      beside line 0 of the target, and the next assembly pairs them. */
  lemma RealignedAfterBadFactors()
    ensures var st := Settings([[map[]], [map[]]], map[], 0, 100, 10);
      var a := Assemble(st, NoFault, [[["a1"], ["a0"]], [["b1"], ["x|y"]]], [["t0"]], [], [], [], 0);
      a.stop == TooManyFactors && a.sources == [] &&
      a.sbufs == [[["a1"]], [["b1"]]] && a.tbuf == [["t0"]] && Even(a.sbufs, a.tbuf) &&
      var b := Assemble(st, NoFault, a.sbufs, a.tbuf, [], [], [], 0);
      |b.sources| == 1 && b.rows == [0] && b.stop == Drained
  {
    BadFactorsStop();
    RealignedBatch();
  }

  /** The first assembly of the example above stops at the bad line. */
  lemma BadFactorsStop()
    ensures Assemble(Settings([[map[]], [map[]]], map[], 0, 100, 10), NoFault,
                     [[["a1"], ["a0"]], [["b1"], ["x|y"]]], [["t0"]], [], [], [], 0) ==
            Assembled([], [], [], [[["a1"]], [["b1"]]], [["t0"]], TooManyFactors)
  {
    BadRowPopped();
  }

  /** The second pairs line 1 of the sources with line 0 of the target. */
  lemma RealignedBatch()
    ensures var b := Assemble(Settings([[map[]], [map[]]], map[], 0, 100, 10), NoFault,
                              [[["a1"]], [["b1"]]], [["t0"]], [], [], [], 0);
      |b.sources| == 1 && b.rows == [0] && b.stop == Drained
  {
    var st := Settings([[map[]], [map[]]], map[], 0, 100, 10);
    var left: seq<seq<Line>> := [[["a1"]], [["b1"]]];
    var empty: seq<seq<Line>> := [[], []];
    var codes := RealignedPopped();
    var t := EncodeTarget(["t0"], st.targetDict, st.nWordsTarget);
    assert !JointlyLong(codes, t, st.maxlen);
    assert PopSources(st.sourceDicts, empty, 0, []) == SourceEmpty(empty);
    var b := Assemble(st, NoFault, left, [["t0"]], [], [], [], 0);
    assert b == Assemble(st, NoFault, empty, [], [codes], [t], [0], 1);
    assert b == Assembled([codes], [t], [0], empty, [], Drained);
  }

  /** The pop of the example above: line 0 of source 0 comes off, then line 0
      of source 1 fails to encode and comes off too. */
  lemma BadRowPopped()
    ensures PopSources([[map[]], [map[]]], [[["a1"], ["a0"]], [["b1"], ["x|y"]]], 0, []) ==
            BadFactors([[["a1"]], [["b1"]]])
  {
    var dicts: seq<seq<Vocab>> := [[map[]], [map[]]];
    var sb: seq<seq<Line>> := [[["a1"], ["a0"]], [["b1"], ["x|y"]]];
    var sb1: seq<seq<Line>> := [[["a1"]], [["b1"], ["x|y"]]];
    var left: seq<seq<Line>> := [[["a1"]], [["b1"]]];
    assert DropLast(sb[0]) == [["a1"]] && sb[0 := DropLast(sb[0])] == sb1;
    assert DropLast(sb1[1]) == [["b1"]] && sb1[1 := DropLast(sb1[1])] == left;
    assert "x|y"[1..] == "|y" && "|y"[1..] == "y" && "y"[1..] == [];
    assert |Factors("x|y")| == 2;
    assert EncodeSource(["x|y"], DictsFor(dicts, 1)) == None;
    assert Factors("a0") == ["a0"];
    assert EncodeSource(["a0"], DictsFor(dicts, 0)).Some?;
  }

  /** The pop after it: line 1 of both sources, both encoding. */
  lemma RealignedPopped() returns (codes: seq<SourceCode>)
    ensures |codes| == 2
    ensures PopSources([[map[]], [map[]]], [[["a1"]], [["b1"]]], 0, []) == AllPopped([[], []], codes)
  {
    var dicts: seq<seq<Vocab>> := [[map[]], [map[]]];
    var left: seq<seq<Line>> := [[["a1"]], [["b1"]]];
    var empty: seq<seq<Line>> := [[], []];
    assert DropLast(left[0]) == [] && left[0 := DropLast(left[0])] == [[], [["b1"]]];
    assert DropLast(left[1]) == [] && [[], [["b1"]]][1 := []] == empty;
    var d0 := EncodeSource(["a1"], DictsFor(dicts, 0));
    var d1 := EncodeSource(["b1"], DictsFor(dicts, 1));
    assert Factors("a1") == ["a1"] && Factors("b1") == ["b1"] && d0.Some? && d1.Some?;
    codes := [d0.value, d1.value];
  }
}
