/** The round segmenter: a two-state machine over the ExpMarkers tokens that
    emits, for every completed box-block segment, the number of `block_moved`
    events seen inside it; and the zero padding that follows it. */
module Segmenter {
  import opened Types
  import opened Text

  const BoxblockStart: string := "boxblock_start"
  const PracticeStart: string := "practice_boxblock_start"
  const BoxblockStop: string := "boxblock_stop"
  const PracticeStop: string := "practice_boxblock_stop"
  const BoxblockEnd: string := "boxblock_end"
  const BlockMoved: string := "block_moved"

  predicate IsStart(t: string) {
    t == BoxblockStart || t == PracticeStart
  }

  predicate IsStop(t: string) {
    t == BoxblockStop || t == PracticeStop || t == BoxblockEnd
  }

  /** A token that opens or closes a segment. */
  predicate IsSentinel(t: string) {
    IsStart(t) || IsStop(t)
  }

  /** Outside any segment, or inside one with the running `block_moved` count. */
  datatype State = Outside | Inside(count: nat)

  /** The state after some tokens together with the counts they emitted. */
  datatype Trace = Trace(state: State, emitted: seq<nat>)

  /** Number of tokens that can make the machine emit. */
  function EmittingTokens(tokens: seq<string>): nat {
    if |tokens| == 0 then 0
    else (if tokens[0] == BoxblockStart || IsStop(tokens[0]) then 1 else 0) + EmittingTokens(tokens[1..])
  }

  /** The running count, zero outside a segment. */
  function Running(st: State): nat {
    if st.Inside? then st.count else 0
  }

  /** One transition. A start enters a fresh segment, emitting the running
      count first only when the token is `boxblock_start` and a segment is
      open; a stop closes an open segment and emits its count; `block_moved`
      counts only inside a segment; everything else is ignored. */
  function Step(st: State, t: string): (r: Trace)
    ensures |r.emitted| <= 1
    ensures r.emitted != [] ==> st.Inside? && r.emitted == [st.count]
    ensures r.emitted != [] <==> st.Inside? && (t == BoxblockStart || IsStop(t))
    ensures r.state.Inside? <==> IsStart(t) || (st.Inside? && !IsStop(t))
    ensures IsStart(t) ==> r.state == Inside(0)
    ensures r.state.Inside? && !IsStart(t) ==> r.state.count == st.count + (if t == BlockMoved then 1 else 0)
  {
    if IsStart(t) then
      Trace(Inside(0), if st.Inside? && t == BoxblockStart then [st.count] else [])
    else if IsStop(t) then
      Trace(Outside, if st.Inside? then [st.count] else [])
    else if t == BlockMoved && st.Inside? then
      Trace(Inside(st.count + 1), [])
    else
      Trace(st, [])
  }

  /** Runs the machine over `tokens` from `st`, collecting the emitted counts
      in order. An open segment at the end is left in the final state and its
      count is never emitted. */
  function Run(st: State, tokens: seq<string>): (r: Trace)
    ensures |r.emitted| <= |tokens|
    decreases |tokens|
  {
    if |tokens| == 0 then Trace(st, [])
    else
      var first := Step(st, tokens[0]);
      var rest := Run(first.state, tokens[1..]);
      Trace(rest.state, first.emitted + rest.emitted)
  }

  /** Only sentinels emit, and no emitted or running count exceeds the
      `block_moved` events seen plus the count the run started with. */
  lemma {:induction false} RunBounds(st: State, tokens: seq<string>)
    ensures |Run(st, tokens).emitted| <= EmittingTokens(tokens)
    ensures forall k :: 0 <= k < |Run(st, tokens).emitted| ==>
      Run(st, tokens).emitted[k] <= Running(st) + Count(tokens, BlockMoved)
    ensures Run(st, tokens).state.Inside? ==> Run(st, tokens).state.count <= Running(st) + Count(tokens, BlockMoved)
    decreases |tokens|
  {
    if |tokens| > 0 {
      var first := Step(st, tokens[0]);
      RunBounds(first.state, tokens[1..]);
    }
  }

  /** The block counts of an ExpMarkers stream: the machine run from `Outside`. */
  function Segment(tokens: seq<string>): (counts: seq<nat>)
    ensures |counts| <= EmittingTokens(tokens)
    ensures forall k :: 0 <= k < |counts| ==> counts[k] <= Count(tokens, BlockMoved)
  {
    RunBounds(Outside, tokens);
    Run(Outside, tokens).emitted
  }

  /** Running over a concatenation runs over the parts in turn. */
  lemma {:induction false} RunConcat(st: State, a: seq<string>, b: seq<string>)
    ensures Run(st, a + b) == Trace(Run(Run(st, a).state, b).state, Run(st, a).emitted + Run(Run(st, a).state, b).emitted)
    decreases |a|
  {
    if |a| == 0 {
      assert a + b == b;
    } else {
      var first := Step(st, a[0]);
      RunConcat(first.state, a[1..], b);
      assert (a + b)[0] == a[0];
      assert (a + b)[1..] == a[1..] + b;
      var ra := Run(first.state, a[1..]);
      var rb := Run(ra.state, b);
      assert first.emitted + (ra.emitted + rb.emitted) == (first.emitted + ra.emitted) + rb.emitted;
    }
  }

  /** Tokens that contain no start token, run from `Outside`, emit nothing
      and leave the machine `Outside`: `block_moved` outside a segment never
      reaches any count, and a stop outside a segment is a no-op. */
  lemma {:induction false} GapIsIgnored(gap: seq<string>)
    requires forall k :: 0 <= k < |gap| ==> !IsStart(gap[k])
    ensures Run(Outside, gap) == Trace(Outside, [])
  {
    if |gap| > 0 {
      GapIsIgnored(gap[1..]);
    }
  }

  /** Tokens without any sentinel, run inside a segment, emit nothing and
      add their `block_moved` events to the running count. */
  lemma {:induction false} InsideCounts(c: nat, body: seq<string>)
    requires forall k :: 0 <= k < |body| ==> !IsSentinel(body[k])
    ensures Run(Inside(c), body) == Trace(Inside(c + Count(body, BlockMoved)), [])
    decreases |body|
  {
    if |body| > 0 {
      var next := Step(Inside(c), body[0]).state;
      InsideCounts(next.count, body[1..]);
    }
  }

  /** A start token from `Outside` opens an empty segment and emits nothing. */
  lemma OpenSegment(start: string, rest: seq<string>)
    requires IsStart(start)
    ensures Run(Outside, [start] + rest) == Run(Inside(0), rest)
  {
  }

  /** A stop token inside a segment closes it and emits its count. */
  lemma CloseSegment(c: nat, stop: string, rest: seq<string>)
    requires IsStop(stop)
    ensures Run(Inside(c), [stop] + rest) == Trace(Run(Outside, rest).state, [c] + Run(Outside, rest).emitted)
  {
  }

  /** A stop token inside a segment emits exactly one value, the number of
      `block_moved` events since the start; a start directly followed by a
      stop emits 0. */
  lemma Bracket(start: string, body: seq<string>, stop: string, rest: seq<string>)
    requires IsStart(start) && IsStop(stop)
    requires forall k :: 0 <= k < |body| ==> !IsSentinel(body[k])
    ensures Run(Outside, [start] + (body + ([stop] + rest)))
         == Trace(Run(Outside, rest).state, [Count(body, BlockMoved)] + Run(Outside, rest).emitted)
  {
    var after := [stop] + rest;
    OpenSegment(start, body + after);
    RunConcat(Inside(0), body, after);
    InsideCounts(0, body);
    var c := Count(body, BlockMoved);
    assert Run(Inside(0), body).state == Inside(c);
    assert Run(Inside(0), body + after) == Trace(Run(Inside(c), after).state, Run(Inside(c), after).emitted);
    CloseSegment(c, stop, rest);
  }

  /** A stream that ends inside a segment drops the unflushed count. */
  lemma UnterminatedSegmentDropped(start: string, body: seq<string>)
    requires IsStart(start)
    requires forall k :: 0 <= k < |body| ==> !IsSentinel(body[k])
    ensures Segment([start] + body) == []
  {
    InsideCounts(0, body);
    assert ([start] + body)[1..] == body;
  }

  /** `boxblock_start` inside a segment flushes the running count before
      opening a fresh one; `practice_boxblock_start` discards it. */
  lemma Restart(c: nat, rest: seq<string>)
    ensures Run(Inside(c), [BoxblockStart] + rest).emitted == [c] + Run(Inside(0), rest).emitted
    ensures Run(Inside(c), [PracticeStart] + rest) == Run(Inside(0), rest)
  {
  }

  /** One round as it appears in a well-formed stream: tokens that open no
      segment, a start sentinel, a body free of sentinels, a stop sentinel. */
  datatype Round = Round(gap: seq<string>, start: string, body: seq<string>, stop: string)

  predicate WellFormedRound(r: Round) {
    && (forall k :: 0 <= k < |r.gap| ==> !IsStart(r.gap[k]))
    && IsStart(r.start)
    && (forall k :: 0 <= k < |r.body| ==> !IsSentinel(r.body[k]))
    && IsStop(r.stop)
  }

  function RoundTokens(r: Round): seq<string> {
    r.gap + [r.start] + r.body + [r.stop]
  }

  /** The tokens of consecutive rounds. */
  function RoundsStream(rounds: seq<Round>): seq<string> {
    if |rounds| == 0 then [] else RoundTokens(rounds[0]) + RoundsStream(rounds[1..])
  }

  /** The `block_moved` count of each round's body. */
  function BodyCounts(rounds: seq<Round>): (counts: seq<nat>)
    ensures |counts| == |rounds|
    ensures forall i :: 0 <= i < |rounds| ==> counts[i] == Count(rounds[i].body, BlockMoved)
  {
    seq(|rounds|, i requires 0 <= i < |rounds| => Count(rounds[i].body, BlockMoved))
  }

  /** One well-formed round emits exactly its body's `block_moved` count. */
  lemma OneRound(r: Round, after: seq<string>)
    requires WellFormedRound(r)
    ensures Run(Outside, RoundTokens(r) + after)
         == Trace(Run(Outside, after).state, [Count(r.body, BlockMoved)] + Run(Outside, after).emitted)
  {
    var bracket := [r.start] + (r.body + ([r.stop] + after));
    assert RoundTokens(r) + after == r.gap + bracket;
    RunConcat(Outside, r.gap, bracket);
    GapIsIgnored(r.gap);
    assert Run(Outside, r.gap + bracket) == Run(Outside, bracket);
    Bracket(r.start, r.body, r.stop, after);
  }

  /** A stream of N properly bracketed rounds, followed by tokens that open no
      segment, segments into exactly N counts, each the number of
      `block_moved` events inside its own bracket. */
  lemma {:induction false} WellFormedStreamSegments(rounds: seq<Round>, tail: seq<string>)
    requires forall i :: 0 <= i < |rounds| ==> WellFormedRound(rounds[i])
    requires forall k :: 0 <= k < |tail| ==> !IsStart(tail[k])
    ensures Segment(RoundsStream(rounds) + tail) == BodyCounts(rounds)
  {
    if |rounds| == 0 {
      GapIsIgnored(tail);
      assert [] + tail == tail;
    } else {
      var r := rounds[0];
      var after := RoundsStream(rounds[1..]) + tail;
      assert RoundsStream(rounds) + tail == RoundTokens(r) + after;
      assert BodyCounts(rounds) == [Count(r.body, BlockMoved)] + BodyCounts(rounds[1..]);
      WellFormedStreamSegments(rounds[1..], tail);
      OneRound(r, after);
    }
  }

  /** The stream written for a sequence of block counts: one bracketed
      segment per count, holding that many `block_moved` events. */
  function CountsStream(counts: seq<nat>): seq<string> {
    if |counts| == 0 then []
    else [BoxblockStart] + seq(counts[0], _ => BlockMoved) + [BoxblockStop] + CountsStream(counts[1..])
  }

  lemma {:induction false} CountRepeat(n: nat)
    ensures Count(seq(n, _ => BlockMoved), BlockMoved) == n
  {
    if n > 0 {
      CountRepeat(n - 1);
      assert seq(n, _ => BlockMoved)[1..] == seq(n - 1, _ => BlockMoved);
    }
  }

  /** Segmenting the stream written for some counts gives back the counts. */
  lemma {:induction false} SegmentCountsStream(counts: seq<nat>)
    ensures Segment(CountsStream(counts)) == counts
  {
    if |counts| > 0 {
      var body := seq(counts[0], _ => BlockMoved);
      var rest := CountsStream(counts[1..]);
      assert CountsStream(counts) == [BoxblockStart] + (body + ([BoxblockStop] + rest));
      assert forall k :: 0 <= k < |body| ==> !IsSentinel(body[k]);
      Bracket(BoxblockStart, body, BoxblockStop, rest);
      CountRepeat(counts[0]);
      SegmentCountsStream(counts[1..]);
      assert counts == [counts[0]] + counts[1..];
    }
  }

  /** The segmenter written as the script's loop, with the two variables
      `in_boxblock` and `current_round_blocks`. It computes exactly `Segment`. */
  method CountBlocksMoved(tokens: seq<string>) returns (blocks: seq<nat>)
    ensures blocks == Segment(tokens)
  {
    blocks := [];
    var current: nat := 0;
    var inBoxblock := false;
    var i := 0;
    while i < |tokens|
      invariant 0 <= i <= |tokens|
      invariant Run(Outside, tokens[..i]).state == (if inBoxblock then Inside(current) else Outside)
      invariant !inBoxblock ==> current == 0
      invariant Run(Outside, tokens[..i]).emitted == blocks
    {
      var marker := tokens[i];
      RunConcat(Outside, tokens[..i], [marker]);
      assert tokens[..i + 1] == tokens[..i] + [marker];
      assert [marker][1..] == [];
      if marker == BoxblockStart || marker == PracticeStart {
        if inBoxblock && marker == BoxblockStart {
          blocks := blocks + [current];
        }
        inBoxblock := true;
        current := 0;
      } else if marker == BoxblockStop || marker == PracticeStop || marker == BoxblockEnd {
        if inBoxblock {
          blocks := blocks + [current];
          inBoxblock := false;
          current := 0;
        }
      } else if marker == BlockMoved && inBoxblock {
        current := current + 1;
      }
      i := i + 1;
    }
    assert tokens[..|tokens|] == tokens;
  }

  /** Right-pads `counts` with zeros up to `numRounds` entries; never removes
      or alters an entry. */
  function PadWithZeros(counts: seq<nat>, numRounds: nat): (padded: seq<nat>)
    ensures |padded| == if |counts| < numRounds then numRounds else |counts|
    ensures padded[..|counts|] == counts
    ensures forall k :: |counts| <= k < |padded| ==> padded[k] == 0
  {
    if |counts| < numRounds then counts + seq(numRounds - |counts|, _ => 0) else counts
  }

  /** The padding written as the script's `while` loop. */
  method PadLoop(counts: seq<nat>, numRounds: nat) returns (padded: seq<nat>)
    ensures padded == PadWithZeros(counts, numRounds)
  {
    padded := counts;
    while |padded| < numRounds
      invariant |counts| <= |padded|
      invariant |padded| <= if |counts| < numRounds then numRounds else |counts|
      invariant padded[..|counts|] == counts
      invariant forall k :: |counts| <= k < |padded| ==> padded[k] == 0
      decreases numRounds - |padded|
    {
      padded := padded + [0];
    }
    assert padded == PadWithZeros(counts, numRounds) by {
      var expected := PadWithZeros(counts, numRounds);
      assert |padded| == |expected|;
      assert forall k :: 0 <= k < |counts| ==> padded[k] == padded[..|counts|][k] == expected[k];
    }
  }
}
