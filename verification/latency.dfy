/** The latency extractor: one applied latency per `condition_advance|…`
    marker of the LatencyMarkers stream, in stream order. */
module Latency {
  import opened Types
  import opened Text

  /** The prefix that marks a condition-advance token. */
  const ConditionAdvance: string := "condition_advance|"

  /** The separator of the fields of a condition-advance token. */
  const Pipe: char := '|'

  /** What the extractor makes of one token. */
  datatype Reading =
    | Skipped                  // not a condition-advance token, or fewer than three fields
    | Read(latency: int)
    | Rejected(token: string)  // `int()` raises on the third field

  /** One token: it must start with the prefix and split into at least three
      fields; the third field, with every "ms" deleted, goes to `int()`. */
  function ReadToken(token: string): (r: Reading)
    ensures r.Rejected? ==> r.token == token && StartsWith(token, ConditionAdvance)
    ensures r.Read? ==> StartsWith(token, ConditionAdvance) && |Split(token, Pipe)| >= 3
    ensures r.Skipped? <==> !StartsWith(token, ConditionAdvance) || |Split(token, Pipe)| < 3
  {
    if !StartsWith(token, ConditionAdvance) then Skipped
    else
      var parts := Split(token, Pipe);
      if |parts| < 3 then Skipped
      else
        match ParseInt(RemoveMs(parts[2]))
        case None => Rejected(token)
        case Some(v) => Read(v)
  }

  /** The reading of every token, in stream order. */
  function ReadAll(tokens: seq<string>): seq<Reading> {
    seq(|tokens|, k requires 0 <= k < |tokens| => ReadToken(tokens[k]))
  }

  /** The latencies carried by the readings, in order: the reference the
      short-circuiting extraction is measured against. */
  function LatenciesOf(readings: seq<Reading>): seq<int> {
    if |readings| == 0 then []
    else if readings[0].Read? then [readings[0].latency] + LatenciesOf(readings[1..])
    else LatenciesOf(readings[1..])
  }

  /** Position `k` holds the first rejected reading. */
  predicate FirstRejectedAt(readings: seq<Reading>, k: int) {
    && 0 <= k < |readings|
    && readings[k].Rejected?
    && forall j :: 0 <= j < k ==> !readings[j].Rejected?
  }

  /** The accumulation over the readings: every latency read, in order,
      unless some reading is rejected, in which case the first rejected
      token aborts it. */
  function Gather(readings: seq<Reading>): (r: Result<seq<int>>)
    ensures r.Ok? <==> forall k :: 0 <= k < |readings| ==> !readings[k].Rejected?
    ensures r.Ok? ==> r.value == LatenciesOf(readings)
    ensures r.Err? ==> exists k :: FirstRejectedAt(readings, k) && r.error == MalformedLatency(readings[k].token)
  {
    if |readings| == 0 then Ok([])
    else
      var rest := Gather(readings[1..]);
      assert forall k :: 1 <= k < |readings| ==> readings[k] == readings[1..][k - 1];
      if readings[0].Rejected? then
        assert FirstRejectedAt(readings, 0);
        Err(MalformedLatency(readings[0].token))
      else if rest.Err? then
        assert exists k :: FirstRejectedAt(readings, k) && rest.error == MalformedLatency(readings[k].token) by {
          var k :| FirstRejectedAt(readings[1..], k) && rest.error == MalformedLatency(readings[1..][k].token);
          assert FirstRejectedAt(readings, k + 1);
        }
        rest
      else if readings[0].Read? then Ok([readings[0].latency] + rest.value)
      else rest
  }

  /** The latencies of a marker sequence. It succeeds exactly when `int()`
      accepts the third field of every condition-advance token, and then
      holds their values in stream order; otherwise it aborts with the first
      token whose field `int()` rejects. */
  function ExtractLatencies(tokens: seq<string>): (r: Result<seq<int>>)
    ensures r.Ok? <==> forall k :: 0 <= k < |tokens| ==> !ReadToken(tokens[k]).Rejected?
    ensures r.Ok? ==> r.value == LatenciesOf(ReadAll(tokens))
    ensures r.Err? ==> exists k :: FirstRejectedAt(ReadAll(tokens), k) && r.error == MalformedLatency(tokens[k])
  {
    assert forall k :: 0 <= k < |tokens| ==> ReadAll(tokens)[k] == ReadToken(tokens[k]);
    Gather(ReadAll(tokens))
  }

  /** Reading a concatenation reads the parts. */
  lemma ReadAllConcat(a: seq<string>, b: seq<string>)
    ensures ReadAll(a + b) == ReadAll(a) + ReadAll(b)
  {
  }

  /** Accumulation over a concatenation: the first part's outcome, then the
      second's, with the values of the two parts in order. */
  lemma {:induction false} GatherConcat(a: seq<Reading>, b: seq<Reading>)
    ensures Gather(a).Err? ==> Gather(a + b) == Gather(a)
    ensures Gather(a).Ok? && Gather(b).Err? ==> Gather(a + b) == Gather(b)
    ensures Gather(a).Ok? && Gather(b).Ok? ==> Gather(a + b) == Ok(Gather(a).value + Gather(b).value)
  {
    if |a| == 0 {
      assert a + b == b;
      assert Gather(b).Ok? ==> [] + Gather(b).value == Gather(b).value;
    } else {
      GatherConcat(a[1..], b);
      assert (a + b)[0] == a[0];
      assert (a + b)[1..] == a[1..] + b;
      if a[0].Read? && Gather(a[1..]).Ok? && Gather(b).Ok? {
        var v := a[0].latency;
        assert [v] + (Gather(a[1..]).value + Gather(b).value) == ([v] + Gather(a[1..]).value) + Gather(b).value;
      }
    }
  }

  /** Extraction over a concatenation of marker sequences. */
  lemma ExtractConcat(a: seq<string>, b: seq<string>)
    ensures ExtractLatencies(a).Err? ==> ExtractLatencies(a + b) == ExtractLatencies(a)
    ensures ExtractLatencies(a).Ok? && ExtractLatencies(b).Err? ==> ExtractLatencies(a + b) == ExtractLatencies(b)
    ensures ExtractLatencies(a).Ok? && ExtractLatencies(b).Ok? ==>
      ExtractLatencies(a + b) == Ok(ExtractLatencies(a).value + ExtractLatencies(b).value)
  {
    ReadAllConcat(a, b);
    GatherConcat(ReadAll(a), ReadAll(b));
  }

  /** Extraction of a single token. */
  lemma ExtractSingle(t: string)
    ensures ReadToken(t).Skipped? ==> ExtractLatencies([t]) == Ok([])
    ensures ReadToken(t).Rejected? ==> ExtractLatencies([t]) == Err(MalformedLatency(t))
    ensures ReadToken(t).Read? ==> ExtractLatencies([t]) == Ok([ReadToken(t).latency])
  {
    var rs := ReadAll([t]);
    assert rs == [ReadToken(t)];
    assert rs[1..] == [];
    if ReadToken(t).Read? {
      assert [ReadToken(t).latency] + [] == [ReadToken(t).latency];
    }
  }

  /** Two tokens each yielding one latency yield both, in order. */
  lemma ExtractPair(t1: string, t2: string, a: int, b: int)
    requires ExtractLatencies([t1]) == Ok([a]) && ExtractLatencies([t2]) == Ok([b])
    ensures ExtractLatencies([t1, t2]) == Ok([a, b])
  {
    ExtractConcat([t1], [t2]);
    assert [t1] + [t2] == [t1, t2];
    assert [a] + [b] == [a, b];
  }

  /** The token written for a round: `condition_advance|<rep>|<latency>ms|<condition>`. */
  function ConditionAdvanceToken(rep: string, latency: int, condition: string): string {
    ConditionAdvance + rep + [Pipe] + IntToString(latency) + Ms + [Pipe] + condition
  }

  /** How a condition-advance token with third field `field` splits. */
  lemma SplitConditionAdvance(rep: string, field: string, condition: string)
    requires Pipe !in rep && Pipe !in field
    ensures var token := ConditionAdvance + rep + [Pipe] + field + [Pipe] + condition;
      && StartsWith(token, ConditionAdvance)
      && Split(token, Pipe) == ["condition_advance", rep, field] + Split(condition, Pipe)
  {
    var head := "condition_advance";
    assert ConditionAdvance == head + [Pipe];
    var rest := rep + [Pipe] + (field + [Pipe] + condition);
    var token := ConditionAdvance + rep + [Pipe] + field + [Pipe] + condition;
    assert token == ConditionAdvance + rest;
    StartsWithConcat(ConditionAdvance, rest);
    assert token == head + [Pipe] + rest;
    SplitThreeFields(head, rep, field, condition, Pipe);
  }

  /** A condition-advance token with only two fields is skipped, whatever its
      second field holds: it neither yields a latency nor aborts. */
  lemma TwoFieldTokenSkipped(rep: string)
    requires Pipe !in rep
    ensures ReadToken(ConditionAdvance + rep).Skipped?
    ensures ExtractLatencies([ConditionAdvance + rep]) == Ok([])
  {
    var head := "condition_advance";
    assert ConditionAdvance + rep == head + [Pipe] + rep;
    assert (ConditionAdvance + rep)[..|ConditionAdvance|] == ConditionAdvance;
    SplitField(head, rep, Pipe);
    CountAbsent(rep, Pipe);
    ExtractSingle(ConditionAdvance + rep);
  }

  /** The reading of a condition-advance token is decided by its third field alone. */
  lemma ReadConditionAdvance(rep: string, field: string, condition: string)
    requires Pipe !in rep && Pipe !in field
    ensures var token := ConditionAdvance + rep + [Pipe] + field + [Pipe] + condition;
      ReadToken(token) == match ParseInt(RemoveMs(field)) case None => Rejected(token) case Some(v) => Read(v)
  {
    SplitConditionAdvance(rep, field, condition);
  }

  /** A well-formed token yields exactly its latency. */
  lemma WellFormedTokenYieldsLatency(rep: string, latency: int, condition: string)
    requires Pipe !in rep
    ensures ExtractLatencies([ConditionAdvanceToken(rep, latency, condition)]) == Ok([latency])
  {
    var digits := IntToString(latency);
    var field := digits + Ms;
    assert Pipe !in digits && 'm' !in digits by {
      assert forall k :: 0 <= k < |digits| ==> IsDigit(digits[k]) || digits[k] == '-';
    }
    assert Pipe !in field;
    assert ConditionAdvanceToken(rep, latency, condition) == ConditionAdvance + rep + [Pipe] + field + [Pipe] + condition;
    ReadConditionAdvance(rep, field, condition);
    RemoveMsKeepsPrefix(digits, Ms);
    assert RemoveMs(Ms) == "" by { assert StartsWith(Ms, Ms); }
    assert digits + "" == digits;
    IntToStringRoundTrip(latency);
    ExtractSingle(ConditionAdvanceToken(rep, latency, condition));
  }

  /** A third field without the "ms" unit is read all the same: the unit is
      deleted where present, never required. */
  lemma UnitlessFieldAccepted(rep: string, latency: int, condition: string)
    requires Pipe !in rep
    ensures var token := ConditionAdvance + rep + [Pipe] + IntToString(latency) + [Pipe] + condition;
      ExtractLatencies([token]) == Ok([latency])
  {
    var digits := IntToString(latency);
    assert Pipe !in digits && 'm' !in digits by {
      assert forall k :: 0 <= k < |digits| ==> IsDigit(digits[k]) || digits[k] == '-';
    }
    ReadConditionAdvance(rep, digits, condition);
    IntToStringRoundTrip(latency);
    ExtractSingle(ConditionAdvance + rep + [Pipe] + digits + [Pipe] + condition);
  }

  /** A third field with no digit at all aborts the extraction with that
      token; it is not skipped. */
  lemma NonNumericFieldAborts(rep: string, field: string, condition: string)
    requires Pipe !in rep && Pipe !in field
    requires forall k :: 0 <= k < |field| ==> !IsDigit(field[k])
    ensures var token := ConditionAdvance + rep + [Pipe] + field + [Pipe] + condition;
      ExtractLatencies([token]) == Err(MalformedLatency(token))
  {
    ReadConditionAdvance(rep, field, condition);
    RemoveMsChars(field);
    ExtractSingle(ConditionAdvance + rep + [Pipe] + field + [Pipe] + condition);
  }

  /** One more token after a successfully extracted prefix. */
  lemma ExtractSnoc(prefix: seq<string>, t: string)
    requires ExtractLatencies(prefix).Ok?
    ensures ReadToken(t).Skipped? ==> ExtractLatencies(prefix + [t]) == ExtractLatencies(prefix)
    ensures ReadToken(t).Read? ==>
      ExtractLatencies(prefix + [t]) == Ok(ExtractLatencies(prefix).value + [ReadToken(t).latency])
  {
    ExtractConcat(prefix, [t]);
    ExtractSingle(t);
    if ReadToken(t).Skipped? {
      assert ExtractLatencies(prefix).value + [] == ExtractLatencies(prefix).value;
    }
  }

  /** A rejected token right after a successfully extracted prefix aborts
      the whole extraction. */
  lemma ExtractAbortsAt(tokens: seq<string>, i: nat)
    requires i < |tokens| && ExtractLatencies(tokens[..i]).Ok?
    requires ReadToken(tokens[i]).Rejected?
    ensures ExtractLatencies(tokens) == Err(MalformedLatency(tokens[i]))
  {
    var rest := tokens[i..];
    assert rest[0] == tokens[i];
    assert tokens[..i] + rest == tokens;
    ExtractConcat(tokens[..i], rest);
  }

  /** The extractor written as the script's loop: walks the markers once,
      appending each parsed latency, and stops at the first field `int()`
      rejects. It computes exactly `ExtractLatencies`. */
  method ExtractLatenciesLoop(tokens: seq<string>) returns (r: Result<seq<int>>)
    ensures r == ExtractLatencies(tokens)
  {
    var latencies: seq<int> := [];
    var i := 0;
    while i < |tokens|
      invariant 0 <= i <= |tokens|
      invariant ExtractLatencies(tokens[..i]) == Ok(latencies)
    {
      var token := tokens[i];
      assert tokens[..i + 1] == tokens[..i] + [token];
      if StartsWith(token, ConditionAdvance) {
        var parts := Split(token, Pipe);
        if |parts| >= 3 {
          var latency := ParseInt(RemoveMs(parts[2]));
          if latency.None? {
            assert ReadToken(token) == Rejected(token);
            ExtractAbortsAt(tokens, i);
            return Err(MalformedLatency(token));
          }
          assert ReadToken(token) == Read(latency.value);
          ExtractSnoc(tokens[..i], token);
          latencies := latencies + [latency.value];
        } else {
          assert ReadToken(token) == Skipped;
          ExtractSnoc(tokens[..i], token);
        }
      } else {
        ExtractSnoc(tokens[..i], token);
      }
      i := i + 1;
    }
    assert tokens[..|tokens|] == tokens;
    r := Ok(latencies);
  }
}
