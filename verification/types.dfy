/** The entities of the reconstruction: event-log documents, questionnaire rows,
    the per-round and per-participant records, and the error outcomes that abort
    a run. */
module Types {

  /** One named channel of an event-log document. Each marker of the channel is
      represented by its first slot, the text token; the remaining slots of a
      marker (timestamps and the like) are never consulted and are not modelled. */
  datatype Stream = Stream(name: string, tokens: seq<string>)

  /** A deserialized event-log document: its streams in document order. Names
      need not be unique and need not be present. */
  type Document = seq<Stream>

  /** The reasons a run is aborted. Each of them is raised, never recovered. */
  datatype Error =
    | MissingStream(name: string)          // no stream of the required name
    | MalformedLatency(token: string)      // a condition-advance field `int()` rejects
    | MissingColumn(key: string)           // a questionnaire column the row lacks
    | DocumentNotFound(participant: int)   // the participant's document cannot be loaded

  /** Success with a value, or the error that aborts the run. */
  datatype Result<+T> = Ok(value: T) | Err(error: Error) {

    predicate IsFailure() {
      Err?
    }

    function PropagateFailure<U>(): Result<U>
      requires Err?
    {
      Err(error)
    }

    function Extract(): T
      requires Ok?
    {
      value
    }
  }

  /** One reconstructed round of one participant. */
  datatype AnswerRound = AnswerRound(
    roundNumber: int,
    latencyApplied: int,     // milliseconds, from the LatencyMarkers stream
    blocksMoved: int,        // `block_moved` count, from the ExpMarkers stream
    delaysExperienced: int,  // the four Likert answers of this round
    taskDifficulty: int,
    feltControlling: int,
    feltPartOfBody: int)

  /** The demographic fields of a questionnaire row, already coerced to their
      declared types; they are carried into the participant record unchanged. */
  datatype Demographics = Demographics(
    submissionId: int,
    created: string,
    gender: string,
    age: int,
    dominantHand: string,
    roboticsExperience: int,
    answerTimeMs: real)

  /** One questionnaire row: the participant number, the demographics, and the
      per-round answer cells keyed by column name. */
  datatype Row = Row(participantNumber: int, demographics: Demographics, cells: map<string, int>)

  /** The finished per-participant record. */
  datatype Participant = Participant(
    participantNumber: int,
    demographics: Demographics,
    rounds: seq<AnswerRound>)
}
