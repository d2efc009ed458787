# A verified model of the Nematus bitext iterator

This project models `TextIterator` from `nematus/data_iterator.py`, the
training-data iterator of Nematus. The iterator reads one or more source files
and a target file in parallel. It fills a look-ahead window of
`batch_size * maxibatch_size` lines. It puts the window in pop order: sorted by
target length, or reversed. Then it hands out batches of encoded examples,
popped from the buffer tails, until the files are exhausted. At that point it
rewinds the files and signals the end of the epoch.

Modules, one per concern of the iterator:

- `Text` (`text.dfy`): lines as `readline` returns them. Also tokens
  (`strip().split()`) and factors (`split('|')`), with the round trips
  between splitting and joining.
- `Vocabulary` (`vocabulary.dfy`): token-to-index maps. It holds the lookup
  with unknown index 1, the deletion loop that cuts a dictionary at a size
  cap, and the target-side clamp.
- `Streams` (`streams.dfy`): an opened file as its lines plus a read cursor,
  with `readline` and `seek(0)`.
- `Encoding` (`encoding.dfy`): the encoding of a source line (factor by
  factor) and of a target line, and the joint length filter.
- `Window` (`window.dfy`): the refill loop, the argsort, and the
  sorting or reversal of the window.
- `Assembly` (`assembly.dfy`): the `while True` loop that pops, encodes,
  filters and collects examples. It is given as a method and as the
  recursive function `Assemble` that specifies it. The lemmas about that
  function follow it.
- `Alignment` (`alignment.dfy`): which file line every buffered row comes
  from. This is how popped sources and targets are shown to come from the same
  line.
- `DataIterator` (`text_iterator.dfy`): the `TextIterator` class. Its
  fields are the streams, the buffers and the end-of-data flag. Its methods
  are the constructor, `Reset`, `Refill` and `Next`.
  - `Next` returns `Batch(sources, target)`, `EndOfEpoch` (the
    `StopIteration` of the source), or `Crashed(reason)` for the exceptions
    that escape.
  - A ghost field `origin` records the line number each buffered target row
    was read at.
  - `Next` states its whole effect on values. `RefillOf` describes the
    window a refill leaves. `ServedFrom` describes what `next` does from
    line 124 on. Either the epoch ends with the buffers kept, or `Assemble`
    over the buffers gives the outcome (`BatchOutcome`), the buffers left
    and the flag.

The class invariant `Valid` says the following:

- there is one buffer per source;
- the streams lie within their files;
- the read cursors agree (all at one line, unless some file is at its end);
- with sorting on, the target buffer is in length order.

`Aligned` says every buffered row holds the tokens of the file line `origin`
names, in every file. `Next` preserves `Aligned` for as long as every source
line encodes. `Balanced` says all buffers have one length. `Next` preserves
`Balanced` when, in addition, all files have the same number of lines. In that
case no call crashes, unless there are no source files at all.

The model follows the code in these details:

- Ties in the sort are left unordered, because `numpy.argsort`'s default
  algorithm is not stable.
- A refill is triggered by an empty first source buffer (line 89), not by
  "all buffers empty". After the assertion at line 86 the two conditions
  coincide.
- The end of the epoch after a refill comes when ANY buffer is empty
  (line 124), not only when all are.
- A token with more factors than its source has dictionaries raises an
  IndexError. That error is caught at line 143 and ends assembly. From
  buffers of one length it leaves them out of step, and the next call fails
  the assertion at line 86. An unsorted window with extra source rows can
  instead come back to one length. The next call then passes the assertion
  and pairs source and target rows from different lines
  (`Assembly.RealignedAfterBadFactors`).
- Without sorting, a window that ends on a shorter target file leaves extra
  source rows. Assembly can then pop the empty target buffer. That raises an
  uncaught IndexError (line 147), modelled as `Crashed(TargetBufferEmpty)`.

## Model

| member | source | states |
|---|---|---|
| `Text.SplitLines` | nematus/data_iterator.py:93-102 | the lines `readline` returns are non-empty; each ends at its first newline, and every line but the last ends with one |
| `Text.ConcatSplitLines` | nematus/data_iterator.py:93-102 | reading every line of a file gives back the whole file |
| `Text.Tokens` | nematus/data_iterator.py:97-104 | `strip().split()` yields non-empty tokens without whitespace |
| `Text.BlankLineHasNoTokens` | nematus/data_iterator.py:94-104 | a line of whitespace only, such as "\n", has no tokens: it is an empty example, not the end of the file |
| `Text.TokensOfUnwords` | nematus/data_iterator.py:97-104 | splitting tokens joined by blanks gives the tokens back |
| `Text.Split` | nematus/data_iterator.py:139 | `split('|')` yields at least one piece, none containing the delimiter |
| `Text.JoinSplit` | nematus/data_iterator.py:139 | joining the pieces with the delimiter restores the token |
| `Text.SplitJoin` | nematus/data_iterator.py:139 | splitting delimiter-free pieces joined by the delimiter restores the pieces |
| `Text.SplitCount` | nematus/data_iterator.py:139 | a token with n delimiters has n + 1 factors |
| `Vocabulary.Lookup` | nematus/data_iterator.py:148-149 | a present token maps to its index and an absent one to 1 |
| `Vocabulary.LookupUnknown` | nematus/data_iterator.py:148-149 | the lookup gives 1 exactly when the token is absent or stored at 1 |
| `Vocabulary.DeleteFrom` | nematus/data_iterator.py:45-52 | the result keeps exactly the entries below the cap, with their indices unchanged, and inserts nothing |
| `Vocabulary.Clamp` | nematus/data_iterator.py:150-151 | with a positive cap the index is below the cap or 1; it is changed exactly when it is at or above a positive cap and is not 1 |
| `Vocabulary.ClampAfterTruncation` | nematus/data_iterator.py:49-52 | after truncation at a cap, a lookup is below the cap or 1, the clamp leaves it alone, and it is the original index when that was below the cap |
| `Streams.Open` | nematus/data_iterator.py:29-30 | an opened file is a valid stream at line 0 whose lines concatenate to the file |
| `Streams.ReadLine` | nematus/data_iterator.py:93-102 | `readline` returns "" exactly at the end of file and does not move then; otherwise it returns the next line and advances by one |
| `Streams.Rewind` | nematus/data_iterator.py:72-74 | `seek(0)` puts the cursor at 0 and keeps the file |
| `Encoding.Factors` | nematus/data_iterator.py:139 | the factors of a token are its pieces between delimiters |
| `Encoding.EncodeToken` | nematus/data_iterator.py:139 | a token encodes exactly when it has no more factors than its source has dictionaries; factor i maps through dictionary i with unknown 1 |
| `Encoding.EncodeSource` | nematus/data_iterator.py:137-141 | an encoded source line has one code per token |
| `Encoding.EncodeSourceTokens` | nematus/data_iterator.py:137-141 | a source line encodes exactly when each of its tokens does, and then code j is the encoding of token j |
| `Encoding.EncodeTargetTokens` | nematus/data_iterator.py:147-151 | a target line gets one index per token, its lookup clamped; with a positive cap every index is below it or 1 |
| `Encoding.TargetUnknown` | nematus/data_iterator.py:148-151 | a target token becomes 1 exactly when it is absent, stored at 1, or at or above a positive cap |
| `Encoding.UnknownTargetExample` | nematus/data_iterator.py:148-149 | with no cap, the target line "a c" over a dictionary without "c" encodes as [2, 1] |
| `Window.FullRows` | nematus/data_iterator.py:90-104 | a refill reads at most k complete rows, and no more than any stream has left; it stops at k or at the first stream that runs out |
| `Window.Taken` | nematus/data_iterator.py:90-97 | a source is read either as many times as there are complete rows or once more |
| `Window.ReadRow` | nematus/data_iterator.py:92-99 | one pass over the sources either reads the next line of every source, or stops at a source with no line left, having read one more line from each source before it and none from the rest |
| `Window.FillWindow` | nematus/data_iterator.py:88-104 | the refill loop appends the tokens of the next lines of every stream, as many as `FullRows` and `Taken` say, and moves the cursors by that much |
| `Window.EvenStreamsFillEvenly` | nematus/data_iterator.py:90-104 | with the same number of lines left in every stream, every buffer gets the same number of rows |
| `Window.ShortFillEndsAStream` | nematus/data_iterator.py:90-104 | a refill that stops short of k rows leaves the target or some source at its end |
| `Window.ArgSort` | nematus/data_iterator.py:108-109 | the result is a permutation of the indices that orders the lengths ascending |
| `Window.GatherPermutes` | nematus/data_iterator.py:110-116 | re-indexing by a permutation keeps the multiset of rows |
| `Window.SortWindow` | nematus/data_iterator.py:107-116 | every buffer is re-indexed by the same permutation, one that sorts the target buffer by length, and the target rows keep their multiset |
| `Window.ReverseWindow` | nematus/data_iterator.py:118-121 | every buffer is reversed |
| `Assembly.AssembleBatch` | nematus/data_iterator.py:129-161 | the loop computes exactly the batch, buffers and stop reason of `Assemble` |
| `Assembly.PopAll` | nematus/data_iterator.py:134-144 | popping the sources touches each buffer at most once at its tail; when all pop and encode, each has lost its last row and the codes are those rows' encodings |
| `Assembly.OneRow` | nematus/data_iterator.py:131-147 | one complete pop takes the last row of every buffer and leaves the other rows in their aligned positions |
| `Assembly.RealignedAfterBadFactors` | nematus/data_iterator.py:133-143 | two sources whose second has one dictionary, holding lines 1 and 0 of source 0, line 1 and a two-factor line 0 of source 1, and target line 0: the stop for too many factors leaves line 1 of both sources beside target line 0, in buffers of one length; the next assembly pairs them in one example |
| `Assembly.AssembleFault` | nematus/data_iterator.py:129-163 | assembly ends in a read failure exactly when the loop reaches the iteration the IOError strikes in: every iteration before the last one, and the last unless it filled the batch |
| `Assembly.AssembleGrows` | nematus/data_iterator.py:131-161 | the batch only grows by appending, and the target buffer is only shortened at its tail |
| `Assembly.AssembleShape` | nematus/data_iterator.py:156-161 | a batch has at most `batch_size` examples (1 when that is not positive), and it stops as full exactly when it reaches that size |
| `Assembly.AssembleProvenance` | nematus/data_iterator.py:136-157 | each example comes from a popped target row and the source rows aligned with it, encoded |
| `Assembly.AssembleRange` | nematus/data_iterator.py:136-147 | every position the batch takes lies in the part of the target buffer that was popped |
| `Assembly.AssembleOrder` | nematus/data_iterator.py:136-147 | examples are popped from strictly falling buffer positions |
| `Assembly.AssembleKeeps` | nematus/data_iterator.py:153-157 | a popped row is in the batch exactly when it encodes and is not long on every side |
| `Assembly.AssembleCut` | nematus/data_iterator.py:131-161 | a full batch or a read failure takes the same number of rows off every buffer; an emptied source buffer or an underflow leaves the target buffer empty |
| `Assembly.AssembleShrinks` | nematus/data_iterator.py:136 | every buffer left is a prefix of the original |
| `Assembly.AssembleBadRow` | nematus/data_iterator.py:139-144 | a stop for too many factors happens at a row that does not encode |
| `Assembly.AssembleEven` | nematus/data_iterator.py:134-147 | buffers of one length never underflow the target, and stay of one length unless a row fails to encode |
| `Assembly.AssembleWellFactored` | nematus/data_iterator.py:139-144 | when every buffered source row encodes, assembly never stops for too many factors |
| `Assembly.LongestFirst` | nematus/data_iterator.py:107-147 | from a length-sorted buffer, targets come out longest first, and no remaining row is longer than any emitted one |
| `Alignment.FillHeadAligned` | nematus/data_iterator.py:90-104 | row p of every freshly filled buffer holds the tokens of line start + p of its file |
| `Alignment.SortAligned` | nematus/data_iterator.py:107-116 | after the sort every row keeps its line number, and all buffers have the target's length |
| `Alignment.ReverseAligned` | nematus/data_iterator.py:118-121 | after the reversal the rows stay aligned from the tail, with line numbers falling towards the head |
| `Alignment.FillKeepsCursors` | nematus/data_iterator.py:90-104 | after a refill the cursors still agree |
| `Alignment.AssembleAligned` | nematus/data_iterator.py:129-161 | unless a row failed to encode, the rows left after assembly are still aligned, with their line numbers |
| `Alignment.BatchShape` | nematus/data_iterator.py:153-161 | a batch has at most `batch_size` examples, one encoding per source, none jointly long, targets clamped |
| `Alignment.BatchProvenance` | nematus/data_iterator.py:129-161 | example j encodes the same line of the target file and of every source file; without sorting the lines come in file order |
| `DataIterator.TruncateSourceDicts` | nematus/data_iterator.py:42-47 | every factor dictionary of a capped source is truncated at its cap; others are untouched |
| `DataIterator.FillFacts` | nematus/data_iterator.py:88-104 | a refill into empty buffers reads aligned rows, keeps the cursors agreeing, fills evenly from files of one length, and reads only encodable rows from an encodable corpus |
| `DataIterator.SortedRefill` | nematus/data_iterator.py:88-116 | a sorted refill leaves the iterator consistent, aligned and balanced |
| `DataIterator.ReversedRefill` | nematus/data_iterator.py:88-121 | a reversed refill leaves the iterator consistent and aligned with falling line numbers, and balanced for files of one length |
| `DataIterator.SortedWindow` | nematus/data_iterator.py:88-116 | a sorted refill reads what `Filled` describes, re-indexes every buffer by one permutation of the rows read, and leaves buffers that are consistent, aligned, of one length, and encodable when the files are |
| `DataIterator.ReversedWindow` | nematus/data_iterator.py:88-121 | a reversed refill reads what `Filled` describes and reverses every buffer; the buffers are consistent and aligned with falling line numbers, of one length for files of one length, and encodable when the files are |
| `DataIterator.RefillWindow` | nematus/data_iterator.py:88-121 | either branch of the refill: the target cursor moves by the complete rows read, every source buffer covers the target buffer, and the invariants hold |
| `DataIterator.AssemblyFacts` | nematus/data_iterator.py:129-164 | assembly keeps the invariants; it keeps alignment and encodability when the buffers encode; it keeps balance and never underflows from balanced buffers |
| `DataIterator.PopFacts` | nematus/data_iterator.py:129-161 | on values: of the popped target rows exactly those the length filter keeps are in the batch; a dry buffer leaves no target rows; a full batch or a read failure leaves every buffer less exactly the rows popped |
| `DataIterator.BatchFacts` | nematus/data_iterator.py:153-170 | on the iterator's state: batch shape, longest first under sorting, and the line every example comes from |
| `DataIterator.TextIterator.constructor` | nematus/data_iterator.py:29-61 | streams opened at line 0; source and target dictionaries cut at positive caps; empty buffers; the flag down |
| `DataIterator.TextIterator.Reset` | nematus/data_iterator.py:66-74 | every stream back at line 0, files unchanged |
| `DataIterator.TextIterator.Refill` | nematus/data_iterator.py:88-121 | the streams advance by what the refill read; the buffers are that data sorted by one length-ordering permutation or reversed; the invariants and alignment hold |
| `DataIterator.TextIterator.Next` | nematus/data_iterator.py:76-170 | the exhaustion handshake; a crash on unequal buffers exactly; a crash with no source file exactly; a refill exactly when the first buffer is empty, leaving the window `RefillOf` describes; past the assertion, the outcome, the buffers left and the flag are those of `ServedFrom` over the refilled window or the buffers as they stood; batch shape and provenance; preservation of alignment, balance and encodability |
| `DataIterator.TextIterator.Advance` | nematus/data_iterator.py:88-170 | from a refill on: a refill exactly when the first buffer is empty, to the window `RefillOf` describes; outcome, buffers left and flag as `ServedFrom` gives them over that window or the old buffers; the end of the epoch with the flag down and the streams rewound, a target underflow only for unequal files without sorting |
| `DataIterator.TextIterator.AfterRefill` | nematus/data_iterator.py:88-170 | the refill leaves the window `RefillOf` describes; the outcome, buffers left and flag are those `ServedFrom` gives over that window; the streams stay where the refill left them unless the epoch ends, and then they are rewound; an underflow only for unequal files without sorting; every example comes from its file lines |
| `DataIterator.TextIterator.FromBuffers` | nematus/data_iterator.py:124-170 | with rows still buffered and balanced: outcome, buffers left and flag as `ServedFrom` gives them over the old buffers; no crash; the streams untouched unless the epoch ends; alignment, encodability and balance kept |
| `DataIterator.TextIterator.EndOrBatch` | nematus/data_iterator.py:124-170 | `ServedFrom` over the old buffers: an empty buffer ends the epoch with the buffers kept, otherwise the outcome and the buffers left are those of `Assemble` over the old buffers; the streams rewound at the end of an epoch and untouched otherwise |
| `DataIterator.TextIterator.PopBatch` | nematus/data_iterator.py:129-164 | batch, stop reason, buffers left and line origins are those of `Assemble` over the old buffers; the popped rows kept are exactly those the length filter passes, and the buffers lose exactly the rows popped (`PoppedExactly`); the flag is raised exactly on a read failure, which happens exactly when the loop reaches the IOError; the examples are shaped and come from their lines; the invariants are kept |
| `DataIterator.TextIterator.TakeBatch` | nematus/data_iterator.py:129-170 | the outcome is `BatchOutcome` of `Assemble` over the old buffers (underflow crash, end of the epoch on an empty batch, or the batch), with the buffers it leaves and the flag up exactly for a batch cut short by an IOError; an underflow only from unbalanced buffers; the streams rewound at the end of an epoch |

## Left out

- `fopen` and gzip handling (lines 8-11): file input is not modelled. A file is its text, split into the lines `readline` returns.
- The shuffle branch (lines 24-27 and 67-70): that corpus shuffler is not part of this model. The model takes `shuffle_each_epoch` to be false, so `Reset` only rewinds.
- `load_dict` (lines 33-34): the dictionaries are constructor inputs, already loaded.
- The tie order of `numpy.argsort` (line 109): only "a permutation that orders the target lengths ascending" is modelled.
- `__iter__` and `StopIteration` (lines 63-64, 80, 127, 168): these become the `Outcome` value `EndOfEpoch`.
- The IOError of line 162: it is a parameter of `Next` (`Fault`) saying in which assembly iteration the error strikes. Nothing in the loop actually reads a file.
- Streams are values (`Stream`), held in fields of the iterator. The sharing of file handles is not modelled.
- The assertion at line 86 is modelled as always enabled. Running Python with `-O` would drop it.
- Integer widths: indices and sizes are unbounded integers, as Python's are.
- `DataIterator.TextIterator.Next`: its provenance clause is stated only for batches taken from aligned buffers, that is, right after a refill or when `Aligned` held before the call. After a too-many-factors stop the buffers no longer line up. From buffers of one length the next call then fails the assertion at line 86. From an unsorted window with extra source rows the buffers can come back to one length, and the next call returns examples whose source and target rows come from different lines.
- `DataIterator.TruncateSourceDicts` and `DataIterator.TextIterator.constructor`: both require that no positive count in `n_words_source` names a source without dictionaries. At line 44 such a count raises an IndexError in the constructor, and that crash is not modelled.
