/** The participant assembler: the round count derived from the questionnaire
    header, the per-participant reconstruction pipeline, and the pass over all
    questionnaire rows with the exclusion list. */
module Assembler {
  import opened Types
  import opened Text
  import opened Streams
  import opened Latency
  import opened Segmenter
  import opened Reconciler

  /** The demographic columns of the questionnaire; every other column is a
      per-round answer column. */
  const StaticColumns: seq<string> := [
    "$submission_id",
    "$created",
    "Participant number",
    "What is your gender",
    "How old are you?",
    "What is your dominant hand?",
    "How experienced are you with robotic systems?",
    "$answer_time_ms"
  ]

  /** Participants left out of the output altogether. */
  const IgnoredParticipants: seq<int> := [4]

  /** The columns that are not static, in header order. */
  function RepeatingColumns(columns: seq<string>): (r: seq<string>)
    ensures |r| <= |columns|
    ensures forall c :: c in r <==> c in columns && c !in StaticColumns
  {
    if |columns| == 0 then []
    else if columns[0] in StaticColumns then RepeatingColumns(columns[1..])
    else [columns[0]] + RepeatingColumns(columns[1..])
  }

  /** The number of rounds: the repeating columns divided by the four
      questions of a round, rounded down. */
  function NumRounds(columns: seq<string>): (n: nat)
    ensures n * |Questions| <= |RepeatingColumns(columns)| < (n + 1) * |Questions|
  {
    |RepeatingColumns(columns)| / |Questions|
  }

  /** Filtering a concatenation filters the parts. */
  lemma {:induction false} RepeatingColumnsConcat(a: seq<string>, b: seq<string>)
    ensures RepeatingColumns(a + b) == RepeatingColumns(a) + RepeatingColumns(b)
  {
    if |a| == 0 {
      assert a + b == b;
    } else {
      assert a + b == [a[0]] + (a[1..] + b);
      RepeatingColumnsConcat(a[1..], b);
    }
  }

  /** With the static columns first and the answer columns after them, the
      round count is the answer columns divided by four. */
  lemma NumRoundsOfLayout(repeating: seq<string>)
    requires forall k :: 0 <= k < |repeating| ==> repeating[k] !in StaticColumns
    ensures NumRounds(StaticColumns + repeating) == |repeating| / 4
  {
    RepeatingColumnsConcat(StaticColumns, repeating);
    RepeatingColumnsDrops(StaticColumns);
    RepeatingColumnsKeeps(repeating);
  }

  /** A header of static columns only has no answer columns. */
  lemma {:induction false} RepeatingColumnsDrops(columns: seq<string>)
    requires forall k :: 0 <= k < |columns| ==> columns[k] in StaticColumns
    ensures RepeatingColumns(columns) == []
  {
    if |columns| > 0 {
      RepeatingColumnsDrops(columns[1..]);
    }
  }

  /** A header without static columns is kept whole. */
  lemma {:induction false} RepeatingColumnsKeeps(columns: seq<string>)
    requires forall k :: 0 <= k < |columns| ==> columns[k] !in StaticColumns
    ensures RepeatingColumns(columns) == columns
  {
    if |columns| > 0 {
      RepeatingColumnsKeeps(columns[1..]);
      assert columns == [columns[0]] + columns[1..];
    }
  }

  /** Eight static columns and twelve answer columns make three rounds. */
  lemma TwelveAnswerColumnsMakeThreeRounds(repeating: seq<string>)
    requires |repeating| == 12
    requires forall k :: 0 <= k < |repeating| ==> repeating[k] !in StaticColumns
    ensures |StaticColumns + repeating| == 20
    ensures NumRounds(StaticColumns + repeating) == 3
  {
    NumRoundsOfLayout(repeating);
  }

  /** The document and the row admit a reconstruction: both streams are
      present, `int()` accepts every latency field, and the row answers every
      round. */
  predicate Reconstructible(row: Row, doc: Document, numRounds: nat) {
    && FindStream(doc, LatencyMarkers).Ok?
    && ExtractLatencies(FindStream(doc, LatencyMarkers).value.tokens).Ok?
    && FindStream(doc, ExpMarkers).Ok?
    && HasAnswers(row.cells, numRounds)
  }

  /** `p` is the reconstruction of `row` from `doc`: same participant, same
      demographics, and one record per round holding that round's extracted
      latency, its segment's block count (0 past the last segment) and the
      row's answers. */
  predicate Reconstructs(p: Participant, row: Row, doc: Document, numRounds: nat) {
    && Reconstructible(row, doc, numRounds)
    && p.participantNumber == row.participantNumber
    && p.demographics == row.demographics
    && |p.rounds| == numRounds
    && var latencies := ExtractLatencies(FindStream(doc, LatencyMarkers).value.tokens).value;
       var blocks := Segment(FindStream(doc, ExpMarkers).value.tokens);
       forall i :: 0 <= i < numRounds ==> RoundMatches(p.rounds[i], i, latencies, blocks, row.cells)
  }

  /** The reconstruction for one participant: find the LatencyMarkers stream
      and extract its latencies, find the ExpMarkers stream and segment it,
      pad the block counts, and reconcile both series with the row's answers.
      Each step's failure aborts, in that order. */
  function ProcessParticipant(row: Row, doc: Document, numRounds: nat): (r: Result<Participant>)
    ensures FindStream(doc, LatencyMarkers).Err? ==> r == Err(MissingStream(LatencyMarkers))
    ensures (&& FindStream(doc, LatencyMarkers).Ok?
             && ExtractLatencies(FindStream(doc, LatencyMarkers).value.tokens).Err?)
            ==> r == Err(ExtractLatencies(FindStream(doc, LatencyMarkers).value.tokens).error)
    ensures (&& FindStream(doc, LatencyMarkers).Ok?
             && ExtractLatencies(FindStream(doc, LatencyMarkers).value.tokens).Ok?
             && FindStream(doc, ExpMarkers).Err?) ==> r == Err(MissingStream(ExpMarkers))
    ensures (&& FindStream(doc, LatencyMarkers).Ok?
             && ExtractLatencies(FindStream(doc, LatencyMarkers).value.tokens).Ok?
             && FindStream(doc, ExpMarkers).Ok?
             && !HasAnswers(row.cells, numRounds)) ==> r.Err? && FirstMissingColumn(row.cells, 0, numRounds, r.error)
    ensures r.Ok? <==> Reconstructible(row, doc, numRounds)
    ensures r.Ok? ==> Reconstructs(r.value, row, doc, numRounds)
  {
    var latencyStream :- FindStream(doc, LatencyMarkers);
    var latencies :- ExtractLatencies(latencyStream.tokens);
    var expStream :- FindStream(doc, ExpMarkers);
    var blocks := Segment(expStream.tokens);
    PaddingUnobservable(latencies, blocks, numRounds, row.cells);
    var rounds :- Reconcile(latencies, PadWithZeros(blocks, numRounds), numRounds, row.cells);
    Ok(Participant(row.participantNumber, row.demographics, rounds))
  }

  /** Padding the block counts changes nothing the reconciliation reads:
      entries it adds are the zeros the reconciliation would default to. */
  lemma PaddingUnobservable(latencies: seq<int>, blocks: seq<nat>, numRounds: nat, cells: map<string, int>)
    ensures Reconcile(latencies, PadWithZeros(blocks, numRounds), numRounds, cells)
         == Reconcile(latencies, blocks, numRounds, cells)
  {
    var padded := PadWithZeros(blocks, numRounds);
    forall i | 0 <= i < numRounds
      ensures At(padded, i) == At(blocks, i)
    {
      if i < |blocks| {
        assert padded[i] == padded[..|blocks|][i];
      }
    }
    ReconcileReadsPrefixOnly(latencies, padded, latencies, blocks, cells, 0, numRounds);
  }

  /** A second stream named ExpMarkers (or LatencyMarkers) after the first
      is never consulted: duplicated streams give the same participant. */
  lemma DuplicateStreamsIgnored(row: Row, doc: Document, duplicates: Document, numRounds: nat)
    requires FindStream(doc, LatencyMarkers).Ok? && FindStream(doc, ExpMarkers).Ok?
    ensures ProcessParticipant(row, doc + duplicates, numRounds) == ProcessParticipant(row, doc, numRounds)
  {
    LaterStreamsIgnored(doc, duplicates, LatencyMarkers);
    LaterStreamsIgnored(doc, duplicates, ExpMarkers);
  }

  /** A reconstruction read off the two series the document yields. */
  lemma RecordsOfSeries(row: Row, doc: Document, numRounds: nat, latencies: seq<int>, blocks: seq<nat>)
    requires FindStream(doc, LatencyMarkers).Ok? && FindStream(doc, ExpMarkers).Ok?
    requires ExtractLatencies(FindStream(doc, LatencyMarkers).value.tokens) == Ok(latencies)
    requires Segment(FindStream(doc, ExpMarkers).value.tokens) == blocks
    requires HasAnswers(row.cells, numRounds)
    ensures ProcessParticipant(row, doc, numRounds).Ok?
    ensures forall i :: 0 <= i < numRounds ==>
      RoundMatches(ProcessParticipant(row, doc, numRounds).value.rounds[i], i, latencies, blocks, row.cells)
  {
    assert Reconstructible(row, doc, numRounds);
  }

  /** The latency markers of the two-round session. */
  lemma TwoRoundLatencies()
    ensures ExtractLatencies([ConditionAdvanceToken("rep_1", 200, "condition_1"),
                              ConditionAdvanceToken("rep_2", 0, "condition_2")]) == Ok([200, 0])
  {
    WellFormedTokenYieldsLatency("rep_1", 200, "condition_1");
    WellFormedTokenYieldsLatency("rep_2", 0, "condition_2");
    ExtractPair(ConditionAdvanceToken("rep_1", 200, "condition_1"), ConditionAdvanceToken("rep_2", 0, "condition_2"), 200, 0);
  }

  /** A two-round session: latencies 200 ms and 0 ms, two blocks moved in
      the first round and none in the second, yield those two records. */
  lemma TwoRoundSession(row: Row)
    requires HasAnswers(row.cells, 2)
    ensures var t1 := ConditionAdvanceToken("rep_1", 200, "condition_1");
      var t2 := ConditionAdvanceToken("rep_2", 0, "condition_2");
      var doc := [Stream(ExpMarkers, CountsStream([2, 0])), Stream(LatencyMarkers, [t1, t2])];
      var r := ProcessParticipant(row, doc, 2);
      && r.Ok?
      && r.value.rounds[0].roundNumber == 1 && r.value.rounds[0].latencyApplied == 200 && r.value.rounds[0].blocksMoved == 2
      && r.value.rounds[1].roundNumber == 2 && r.value.rounds[1].latencyApplied == 0 && r.value.rounds[1].blocksMoved == 0
  {
    var t1 := ConditionAdvanceToken("rep_1", 200, "condition_1");
    var t2 := ConditionAdvanceToken("rep_2", 0, "condition_2");
    var doc := [Stream(ExpMarkers, CountsStream([2, 0])), Stream(LatencyMarkers, [t1, t2])];
    assert FindStream(doc, LatencyMarkers) == Ok(doc[1]);
    assert FindStream(doc, ExpMarkers) == Ok(doc[0]);
    TwoRoundLatencies();
    SegmentCountsStream([2, 0]);
    RecordsOfSeries(row, doc, 2, [200, 0], [2, 0]);
  }

  /** The rows that are processed: those whose participant number is not
      excluded, in row order. */
  function KeptRows(rows: seq<Row>, ignored: seq<int>): (kept: seq<Row>)
    ensures |kept| <= |rows|
    ensures forall j :: 0 <= j < |kept| ==> kept[j] in rows && kept[j].participantNumber !in ignored
    ensures forall row :: row in rows && row.participantNumber !in ignored ==> row in kept
  {
    if |rows| == 0 then []
    else if rows[0].participantNumber in ignored then KeptRows(rows[1..], ignored)
    else [rows[0]] + KeptRows(rows[1..], ignored)
  }

  /** One row of the exclusion filter. */
  lemma KeptRowsStep(rows: seq<Row>, ignored: seq<int>)
    requires |rows| > 0
    ensures rows[0].participantNumber in ignored ==> KeptRows(rows, ignored) == KeptRows(rows[1..], ignored)
    ensures rows[0].participantNumber !in ignored ==>
      && KeptRows(rows, ignored) == [rows[0]] + KeptRows(rows[1..], ignored)
      && KeptRows(rows, ignored)[0] == rows[0]
      && forall j :: 1 <= j < |KeptRows(rows, ignored)| ==> KeptRows(rows, ignored)[j] == KeptRows(rows[1..], ignored)[j - 1]
  {
    if rows[0].participantNumber !in ignored {
      var kept, tail := KeptRows(rows, ignored), KeptRows(rows[1..], ignored);
      assert kept == [rows[0]] + tail;
      assert forall j :: 1 <= j < |kept| ==> kept[j] == tail[j - 1];
    }
  }

  /** Filtering a concatenation filters the parts: the kept rows stay in
      row order, each kept once. */
  lemma {:induction false} KeptRowsConcat(a: seq<Row>, b: seq<Row>, ignored: seq<int>)
    ensures KeptRows(a + b, ignored) == KeptRows(a, ignored) + KeptRows(b, ignored)
  {
    if |a| == 0 {
      assert a + b == b;
    } else {
      assert a + b == [a[0]] + (a[1..] + b);
      KeptRowsConcat(a[1..], b, ignored);
    }
  }

  /** `p` is the reconstruction of `row` from the row's own document. */
  predicate RowReconstructs(p: Participant, row: Row, documents: map<int, Document>, numRounds: nat) {
    row.participantNumber in documents && Reconstructs(p, row, documents[row.participantNumber], numRounds)
  }

  /** One row's outcome: its document is looked up by participant number
      (absent: the document cannot be loaded) and reconstructed. */
  function ProcessRow(row: Row, documents: map<int, Document>, numRounds: nat): (r: Result<Participant>)
    ensures row.participantNumber !in documents ==> r == Err(DocumentNotFound(row.participantNumber))
    ensures row.participantNumber in documents ==> r == ProcessParticipant(row, documents[row.participantNumber], numRounds)
    ensures r.Ok? <==> row.participantNumber in documents && Reconstructible(row, documents[row.participantNumber], numRounds)
    ensures r.Ok? ==> RowReconstructs(r.value, row, documents, numRounds)
  {
    if row.participantNumber in documents then
      ProcessParticipant(row, documents[row.participantNumber], numRounds)
    else
      Err(DocumentNotFound(row.participantNumber))
  }

  /** Kept row `j` is the first whose processing fails, and it fails with `e`. */
  predicate FirstFailureAt(kept: seq<Row>, process: Row -> Result<Participant>, j: int, e: Error) {
    && 0 <= j < |kept|
    && process(kept[j]) == Err(e)
    && forall i :: 0 <= i < j ==> process(kept[i]).Ok?
  }

  /** A row that is processed successfully does not move the first failure
      of the rows after it. */
  lemma FirstFailureLater(row: Row, tail: seq<Row>, process: Row -> Result<Participant>, j: int, e: Error)
    requires process(row).Ok? && FirstFailureAt(tail, process, j, e)
    ensures FirstFailureAt([row] + tail, process, j + 1, e)
  {
    var kept := [row] + tail;
    assert forall i :: 1 <= i < |kept| ==> kept[i] == tail[i - 1];
  }

  /** A successfully processed row in front of successfully processed rows
      keeps every row matched with its record. */
  lemma ProcessedCons(row: Row, tail: seq<Row>, process: Row -> Result<Participant>, p: Participant, ps: seq<Participant>)
    requires process(row) == Ok(p)
    requires |ps| == |tail| && forall j :: 0 <= j < |ps| ==> process(tail[j]) == Ok(ps[j])
    ensures forall j :: 0 <= j < |ps| + 1 ==> process(([row] + tail)[j]) == Ok(([p] + ps)[j])
  {
    forall j | 0 <= j < |ps| + 1
      ensures process(([row] + tail)[j]) == Ok(([p] + ps)[j])
    {
      if j > 0 {
        assert ([row] + tail)[j] == tail[j - 1] && ([p] + ps)[j] == ps[j - 1];
      }
    }
  }

  /** The pass over the rows with a given per-row reconstruction: excluded
      rows are skipped before `process` sees them, the others are processed
      in row order, and the first failure aborts the whole batch. */
  function AssembleWith(rows: seq<Row>, ignored: seq<int>, process: Row -> Result<Participant>)
    : (r: Result<seq<Participant>>)
    ensures r.Ok? ==> |r.value| == |KeptRows(rows, ignored)|
    ensures r.Ok? ==> forall j :: 0 <= j < |r.value| ==> process(KeptRows(rows, ignored)[j]) == Ok(r.value[j])
    ensures r.Err? ==> exists j :: FirstFailureAt(KeptRows(rows, ignored), process, j, r.error)
  {
    if |rows| == 0 then Ok([])
    else if rows[0].participantNumber in ignored then
      KeptRowsStep(rows, ignored);
      AssembleWith(rows[1..], ignored, process)
    else
      var kept := KeptRows(rows, ignored);
      var tail := KeptRows(rows[1..], ignored);
      KeptRowsStep(rows, ignored);
      var first := process(rows[0]);
      if first.Err? then
        assert FirstFailureAt(kept, process, 0, first.error);
        Err(first.error)
      else
        var rest := AssembleWith(rows[1..], ignored, process);
        if rest.Err? then
          assert exists j :: FirstFailureAt(kept, process, j, rest.error) by {
            var j :| FirstFailureAt(tail, process, j, rest.error);
            FirstFailureLater(rows[0], tail, process, j, rest.error);
          }
          Err(rest.error)
        else
          ProcessedCons(rows[0], tail, process, first.value, rest.value);
          Ok([first.value] + rest.value)
  }

  /** The batch succeeds exactly when every row that is not excluded
      reconstructs. */
  lemma AssembleWithSucceedsIff(rows: seq<Row>, ignored: seq<int>, process: Row -> Result<Participant>)
    ensures AssembleWith(rows, ignored, process).Ok? <==>
      forall row :: row in rows && row.participantNumber !in ignored ==> process(row).Ok?
  {
  }

  /** Two reconstructions that agree on every row not excluded assemble
      alike. */
  lemma {:induction false} AssembleWithAgrees(rows: seq<Row>, ignored: seq<int>, process: Row -> Result<Participant>,
                                              process': Row -> Result<Participant>)
    requires forall row :: row in rows && row.participantNumber !in ignored ==> process(row) == process'(row)
    ensures AssembleWith(rows, ignored, process) == AssembleWith(rows, ignored, process')
  {
    if |rows| > 0 {
      assert forall row :: row in rows[1..] ==> row in rows;
      AssembleWithAgrees(rows[1..], ignored, process, process');
    }
  }

  /** All participants, in row order. Excluded rows are skipped before their
      document is touched; the first failing row aborts the whole batch. */
  function Assemble(rows: seq<Row>, ignored: seq<int>, documents: map<int, Document>, numRounds: nat)
    : (r: Result<seq<Participant>>)
    ensures r.Ok? <==> forall row :: row in rows && row.participantNumber !in ignored ==>
      row.participantNumber in documents && Reconstructible(row, documents[row.participantNumber], numRounds)
    ensures r.Ok? ==> |r.value| == |KeptRows(rows, ignored)|
    ensures r.Ok? ==> forall j :: 0 <= j < |r.value| ==> RowReconstructs(r.value[j], KeptRows(rows, ignored)[j], documents, numRounds)
    ensures r.Err? ==> exists j :: (&& 0 <= j < |KeptRows(rows, ignored)|
                                    && ProcessRow(KeptRows(rows, ignored)[j], documents, numRounds) == Err(r.error)
                                    && forall i :: 0 <= i < j ==> ProcessRow(KeptRows(rows, ignored)[i], documents, numRounds).Ok?)
  {
    var process := row => ProcessRow(row, documents, numRounds);
    var r := AssembleWith(rows, ignored, process);
    AssembleWithSucceedsIff(rows, ignored, process);
    assert r.Err? ==> exists j :: (&& 0 <= j < |KeptRows(rows, ignored)|
                                   && ProcessRow(KeptRows(rows, ignored)[j], documents, numRounds) == Err(r.error)
                                   && forall i :: 0 <= i < j ==> ProcessRow(KeptRows(rows, ignored)[i], documents, numRounds).Ok?) by {
      if r.Err? {
        var j :| FirstFailureAt(KeptRows(rows, ignored), process, j, r.error);
      }
    }
    assert r.Ok? ==> forall j :: 0 <= j < |r.value| ==> RowReconstructs(r.value[j], KeptRows(rows, ignored)[j], documents, numRounds) by {
      if r.Ok? {
        forall j | 0 <= j < |r.value|
          ensures RowReconstructs(r.value[j], KeptRows(rows, ignored)[j], documents, numRounds)
        {
          assert ProcessRow(KeptRows(rows, ignored)[j], documents, numRounds) == Ok(r.value[j]);
        }
      }
    }
    r
  }

  /** Nobody on the exclusion list appears in the output. */
  lemma AssembleExcludes(rows: seq<Row>, ignored: seq<int>, documents: map<int, Document>, numRounds: nat)
    requires Assemble(rows, ignored, documents, numRounds).Ok?
    ensures forall p :: p in Assemble(rows, ignored, documents, numRounds).value ==> p.participantNumber !in ignored
  {
  }

  /** Every assembled participant has one record per round. */
  lemma AssembledRoundCounts(rows: seq<Row>, ignored: seq<int>, documents: map<int, Document>, numRounds: nat)
    requires Assemble(rows, ignored, documents, numRounds).Ok?
    ensures forall p :: p in Assemble(rows, ignored, documents, numRounds).value ==> |p.rounds| == numRounds
  {
    var ps := Assemble(rows, ignored, documents, numRounds).value;
    forall p | p in ps
      ensures |p.rounds| == numRounds
    {
      var j :| 0 <= j < |ps| && ps[j] == p;
    }
  }

  /** The documents of excluded participants are never consulted: whatever
      they hold, or whether they exist at all, the outcome is the same. */
  lemma ExcludedDocumentsIrrelevant(
    rows: seq<Row>, ignored: seq<int>, documents: map<int, Document>, documents': map<int, Document>, numRounds: nat)
    requires forall row :: row in rows && row.participantNumber !in ignored ==>
      (row.participantNumber in documents <==> row.participantNumber in documents') &&
      (row.participantNumber in documents ==> documents[row.participantNumber] == documents'[row.participantNumber])
    ensures Assemble(rows, ignored, documents, numRounds) == Assemble(rows, ignored, documents', numRounds)
  {
    var process := row => ProcessRow(row, documents, numRounds);
    var process' := row => ProcessRow(row, documents', numRounds);
    assert forall row :: row in rows && row.participantNumber !in ignored ==> process(row) == process'(row);
    AssembleWithAgrees(rows, ignored, process, process');
  }

  /** The whole run: the round count from the header, then every row, with
      the configured exclusion list. */
  function ProcessQuestionnaire(columns: seq<string>, rows: seq<Row>, documents: map<int, Document>)
    : (r: Result<seq<Participant>>)
    ensures r.Ok? <==> forall row :: row in rows && row.participantNumber != 4 ==>
      row.participantNumber in documents && Reconstructible(row, documents[row.participantNumber], NumRounds(columns))
    ensures r.Ok? ==> forall p :: p in r.value ==> p.participantNumber != 4
    ensures r.Ok? ==> forall p :: p in r.value ==> |p.rounds| == NumRounds(columns)
    ensures r.Ok? ==> |r.value| == |KeptRows(rows, IgnoredParticipants)|
    ensures r.Ok? ==> forall j :: 0 <= j < |r.value| ==>
      RowReconstructs(r.value[j], KeptRows(rows, IgnoredParticipants)[j], documents, NumRounds(columns))
    ensures r.Err? ==> exists j :: (&& 0 <= j < |KeptRows(rows, IgnoredParticipants)|
                                    && ProcessRow(KeptRows(rows, IgnoredParticipants)[j], documents, NumRounds(columns)) == Err(r.error)
                                    && forall i :: 0 <= i < j ==>
                                         ProcessRow(KeptRows(rows, IgnoredParticipants)[i], documents, NumRounds(columns)).Ok?)
  {
    var r := Assemble(rows, IgnoredParticipants, documents, NumRounds(columns));
    assert forall n :: n in IgnoredParticipants <==> n == 4;
    if r.Ok? then
      AssembleExcludes(rows, IgnoredParticipants, documents, NumRounds(columns));
      AssembledRoundCounts(rows, IgnoredParticipants, documents, NumRounds(columns));
      r
    else r
  }
}
