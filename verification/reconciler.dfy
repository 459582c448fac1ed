/** The round reconciler: builds the fixed number of per-round records from
    the two extracted series and the questionnaire answers of one row. */
module Reconciler {
  import opened Types
  import opened Text

  /** The four questions asked after every round, as their column names read. */
  const Questions: seq<string> := [
    "Did you experience delays between your actions and the robot&#39;s movements?",
    "How difficult was it to perform the task?",
    "I felt like I was controlling the movement of the robot",
    "It felt like the robot was part of my body"
  ]

  /** The column holding a question's answer for round `round` (0-based):
      the question text itself for the first round, and the text followed by
      `.` and the round index for every later one, the way a table reader
      disambiguates repeated column names. */
  function ColumnKey(question: string, round: nat): (key: string)
    ensures round == 0 <==> |key| == |question|
    ensures round > 0 ==> |key| > |question| + 1
  {
    if round > 0 then question + "." + NatToString(round) else question
  }

  /** Every round's column begins with the question text; only the first
      round's column is the bare text. */
  lemma ColumnKeyShape(question: string, round: nat)
    ensures StartsWith(ColumnKey(question, round), question)
    ensures round == 0 <==> ColumnKey(question, round) == question
  {
    assert ColumnKey(question, round)[..|question|] == question;
  }

  /** A decimal numeral as `str()` writes it: digits only, no leading zero. */
  predicate IsCanonicalNumeral(d: string) {
    && |d| > 0
    && (forall k :: 0 <= k < |d| ==> IsDigit(d[k]))
    && (d[0] == '0' ==> |d| == 1)
  }

  /** The round a column name stands for, for a given question: the reading
      of the repeated-column suffix. `None` for a column of another question
      or an ill-formed suffix. */
  function RoundOfColumn(question: string, column: string): Option<nat> {
    if column == question then Some(0)
    else if StartsWith(column, question + ".") then
      var suffix := column[|question| + 1..];
      if IsCanonicalNumeral(suffix) && DigitsValue(suffix) > 0 then Some(DigitsValue(suffix)) else None
    else None
  }

  /** A rendered natural is a canonical numeral. */
  lemma NatToStringCanonical(n: nat)
    ensures IsCanonicalNumeral(NatToString(n))
  {
  }

  /** A canonical numeral with more than one digit stands for at least 10. */
  lemma {:induction false} CanonicalAtLeastTen(d: string)
    requires IsCanonicalNumeral(d) && |d| > 1
    ensures DigitsValue(d) >= 10
  {
    var p := d[..|d| - 1];
    assert p[0] == d[0] != '0';
    if |p| > 1 {
      CanonicalAtLeastTen(p);
    } else {
      assert DigitsValue(p) == DigitsValue(p[..0]) * 10 + (p[0] as int - '0' as int);
    }
  }

  /** Rendering the value of a canonical numeral gives back the numeral. */
  lemma {:induction false} CanonicalRoundTrip(d: string)
    requires IsCanonicalNumeral(d)
    ensures NatToString(DigitsValue(d)) == d
  {
    var last := d[|d| - 1] as int - '0' as int;
    if |d| == 1 {
      assert DigitsValue(d) == DigitsValue(d[..0]) * 10 + last;
      assert [DigitChar(last)] == d;
    } else {
      var p := d[..|d| - 1];
      assert p[0] == d[0];
      CanonicalRoundTrip(p);
      CanonicalAtLeastTen(d);
      var n := DigitsValue(d);
      assert n == DigitsValue(p) * 10 + last;
      assert n / 10 == DigitsValue(p) && n % 10 == last;
      assert d == p + [DigitChar(last)];
    }
  }

  /** Every round's column reads back as that round. */
  lemma ColumnKeyRoundTrip(question: string, round: nat)
    ensures RoundOfColumn(question, ColumnKey(question, round)) == Some(round)
  {
    if round > 0 {
      var key := ColumnKey(question, round);
      var digits := NatToString(round);
      assert key[..|question| + 1] == question + ".";
      assert key[|question| + 1..] == digits;
      NatToStringCanonical(round);
      NatToStringValue(round);
    }
  }

  /** Every column that reads as a round is that round's column. */
  lemma RoundOfColumnSound(question: string, column: string)
    requires RoundOfColumn(question, column).Some?
    ensures ColumnKey(question, RoundOfColumn(question, column).value) == column
  {
    if column != question {
      var suffix := column[|question| + 1..];
      CanonicalRoundTrip(suffix);
      assert column == column[..|question| + 1] + suffix;
    }
  }

  /** Distinct rounds read distinct columns. */
  lemma ColumnKeyInjective(question: string, i: nat, j: nat)
    requires ColumnKey(question, i) == ColumnKey(question, j)
    ensures i == j
  {
    ColumnKeyRoundTrip(question, i);
    ColumnKeyRoundTrip(question, j);
  }

  /** Entry `i` of a series, or 0 when the series is too short. */
  function At(values: seq<int>, i: nat): (v: int)
    ensures i < |values| ==> v == values[i]
    ensures |values| <= i ==> v == 0
  {
    if i < |values| then values[i] else 0
  }

  /** The row's answer to a question for one round. */
  function Answer(cells: map<string, int>, question: string, round: nat): (r: Result<int>)
    ensures r.Ok? <==> ColumnKey(question, round) in cells
    ensures r.Ok? ==> r.value == cells[ColumnKey(question, round)]
    ensures r.Err? ==> r.error == MissingColumn(ColumnKey(question, round))
  {
    var key := ColumnKey(question, round);
    if key in cells then Ok(cells[key]) else Err(MissingColumn(key))
  }

  /** The row holds all four answers of round `i`. */
  predicate RoundAnswered(cells: map<string, int>, i: nat) {
    forall k :: 0 <= k < |Questions| ==> ColumnKey(Questions[k], i) in cells
  }

  /** The row holds all four answers of every round below `numRounds`. */
  predicate HasAnswers(cells: map<string, int>, numRounds: nat) {
    forall i :: 0 <= i < numRounds ==> RoundAnswered(cells, i)
  }

  /** Question `k` is the first, in question order, whose column for round
      `i` the row lacks. */
  predicate FirstMissingQuestion(cells: map<string, int>, i: nat, k: int) {
    && 0 <= k < |Questions|
    && ColumnKey(Questions[k], i) !in cells
    && forall q :: 0 <= q < k ==> ColumnKey(Questions[q], i) in cells
  }

  /** Round `i` is the first round from `from` on that lacks an answer. */
  predicate FirstIncompleteRound(cells: map<string, int>, from: nat, i: nat) {
    && from <= i
    && !RoundAnswered(cells, i)
    && forall j :: from <= j < i ==> RoundAnswered(cells, j)
  }

  /** The first missing column of round `i`, and round `i` the first
      incomplete round from `from` on, together: the first column the
      reconciliation misses. */
  predicate FirstMissingColumn(cells: map<string, int>, from: nat, numRounds: nat, e: Error) {
    exists i: nat, k :: (&& i < numRounds && 0 <= k < |Questions| && FirstIncompleteRound(cells, from, i)
                         && FirstMissingQuestion(cells, i, k) && e == MissingColumn(ColumnKey(Questions[k], i)))
  }

  /** What round `i` of a reconciliation must hold: its 1-based number, the
      series entries at `i` (0 where a series is too short), and the four
      answers from that round's columns. */
  predicate RoundMatches(round: AnswerRound, i: nat, latencies: seq<int>, blocks: seq<int>, cells: map<string, int>)
  {
    && round.roundNumber == i + 1
    && round.latencyApplied == At(latencies, i)
    && round.blocksMoved == At(blocks, i)
    && ColumnKey(Questions[0], i) in cells && round.delaysExperienced == cells[ColumnKey(Questions[0], i)]
    && ColumnKey(Questions[1], i) in cells && round.taskDifficulty == cells[ColumnKey(Questions[1], i)]
    && ColumnKey(Questions[2], i) in cells && round.feltControlling == cells[ColumnKey(Questions[2], i)]
    && ColumnKey(Questions[3], i) in cells && round.feltPartOfBody == cells[ColumnKey(Questions[3], i)]
  }

  /** One round, reading its four answers in question order; the first
      missing column aborts. */
  function BuildRound(latencies: seq<int>, blocks: seq<int>, cells: map<string, int>, i: nat): (r: Result<AnswerRound>)
    ensures r.Ok? <==> RoundAnswered(cells, i)
    ensures r.Ok? ==> RoundMatches(r.value, i, latencies, blocks, cells)
    ensures r.Err? ==> exists k :: FirstMissingQuestion(cells, i, k) && r.error == MissingColumn(ColumnKey(Questions[k], i))
  {
    var delays :- Answer(cells, Questions[0], i);
    var difficulty :- Answer(cells, Questions[1], i);
    var controlling :- Answer(cells, Questions[2], i);
    var partOfBody :- Answer(cells, Questions[3], i);
    Ok(AnswerRound(i + 1, At(latencies, i), At(blocks, i), delays, difficulty, controlling, partOfBody))
  }

  /** A round that misses a column is the first incomplete one from itself on. */
  lemma FirstMissingHere(cells: map<string, int>, from: nat, numRounds: nat, k: int)
    requires from < numRounds && FirstMissingQuestion(cells, from, k)
    ensures FirstMissingColumn(cells, from, numRounds, MissingColumn(ColumnKey(Questions[k], from)))
  {
    assert FirstIncompleteRound(cells, from, from);
  }

  /** A complete round does not move the first missing column of the later
      rounds. */
  lemma FirstMissingLater(cells: map<string, int>, from: nat, numRounds: nat, e: Error)
    requires RoundAnswered(cells, from) && FirstMissingColumn(cells, from + 1, numRounds, e)
    ensures FirstMissingColumn(cells, from, numRounds, e)
  {
    var i: nat, k :| (&& i < numRounds && 0 <= k < |Questions| && FirstIncompleteRound(cells, from + 1, i)
                      && FirstMissingQuestion(cells, i, k) && e == MissingColumn(ColumnKey(Questions[k], i)));
    assert FirstIncompleteRound(cells, from, i);
  }

  /** Rounds `from` up to `numRounds`, in order; the first missing column
      aborts. */
  function BuildRounds(latencies: seq<int>, blocks: seq<int>, cells: map<string, int>, from: nat, numRounds: nat)
    : (r: Result<seq<AnswerRound>>)
    ensures r.Ok? ==> |r.value| == if from < numRounds then numRounds - from else 0
    ensures r.Ok? ==> forall j :: 0 <= j < |r.value| ==> RoundMatches(r.value[j], from + j, latencies, blocks, cells)
    ensures r.Ok? <==> forall i :: from <= i < numRounds ==> RoundAnswered(cells, i)
    ensures r.Err? ==> FirstMissingColumn(cells, from, numRounds, r.error)
    decreases numRounds - from
  {
    if from >= numRounds then Ok([])
    else
      var round := BuildRound(latencies, blocks, cells, from);
      if round.Err? then
        assert FirstMissingColumn(cells, from, numRounds, round.error) by {
          var k :| FirstMissingQuestion(cells, from, k) && round.error == MissingColumn(ColumnKey(Questions[k], from));
          FirstMissingHere(cells, from, numRounds, k);
        }
        Err(round.error)
      else
        var rest := BuildRounds(latencies, blocks, cells, from + 1, numRounds);
        if rest.Err? then
          FirstMissingLater(cells, from, numRounds, rest.error);
          rest
        else
          var all := [round.value] + rest.value;
          assert forall j :: 1 <= j < |all| ==> all[j] == rest.value[j - 1];
          Ok(all)
  }

  /** The `numRounds` records of one participant. Round `i` (0-based) is
      numbered `i + 1`, takes entry `i` of each series or 0 past its end, and
      the answers of its own columns; lengths are never cross-checked. A row
      lacking one of those columns aborts with the first one missing, rounds
      in order and questions in order within a round. */
  function Reconcile(latencies: seq<int>, blocks: seq<int>, numRounds: nat, cells: map<string, int>)
    : (r: Result<seq<AnswerRound>>)
    ensures r.Ok? <==> HasAnswers(cells, numRounds)
    ensures r.Ok? ==> |r.value| == numRounds
    ensures r.Ok? ==> forall i :: 0 <= i < numRounds ==> RoundMatches(r.value[i], i, latencies, blocks, cells)
    ensures r.Err? ==> FirstMissingColumn(cells, 0, numRounds, r.error)
  {
    BuildRounds(latencies, blocks, cells, 0, numRounds)
  }

  /** The reconciliation reads each series only at the indices below
      `numRounds`: two pairs of series that agree there reconcile alike. */
  lemma {:induction false} ReconcileReadsPrefixOnly(
    latencies: seq<int>, blocks: seq<int>, latencies': seq<int>, blocks': seq<int>,
    cells: map<string, int>, from: nat, numRounds: nat)
    requires forall i :: from <= i < numRounds ==> At(latencies, i) == At(latencies', i) && At(blocks, i) == At(blocks', i)
    ensures BuildRounds(latencies, blocks, cells, from, numRounds) == BuildRounds(latencies', blocks', cells, from, numRounds)
    decreases numRounds - from
  {
    if from < numRounds {
      assert BuildRound(latencies, blocks, cells, from) == BuildRound(latencies', blocks', cells, from);
      ReconcileReadsPrefixOnly(latencies, blocks, latencies', blocks', cells, from + 1, numRounds);
    }
  }

  /** Entries past `numRounds` are never read: a longer series is neither
      truncated nor rejected, its excess simply goes unused. */
  lemma ExcessEntriesUnused(latencies: seq<int>, blocks: seq<int>, extraLatencies: seq<int>, extraBlocks: seq<int>,
                            numRounds: nat, cells: map<string, int>)
    requires |latencies| >= numRounds && |blocks| >= numRounds
    ensures Reconcile(latencies + extraLatencies, blocks + extraBlocks, numRounds, cells)
         == Reconcile(latencies, blocks, numRounds, cells)
  {
    ReconcileReadsPrefixOnly(latencies + extraLatencies, blocks + extraBlocks, latencies, blocks, cells, 0, numRounds);
  }
}
