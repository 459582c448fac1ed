/** Locating a named stream inside an event-log document. */
module Streams {
  import opened Types

  /** The stream carrying the `condition_advance|…` latency markers. */
  const LatencyMarkers: string := "LatencyMarkers"

  /** The stream carrying the box-block sentinels and `block_moved` events. */
  const ExpMarkers: string := "ExpMarkers"

  /** The first stream of `doc` whose name is `name`; a later stream of the
      same name is never consulted. `MissingStream` when no stream matches. */
  function FindStream(doc: Document, name: string): (r: Result<Stream>)
    ensures r.Ok? <==> exists i :: 0 <= i < |doc| && doc[i].name == name
    ensures r.Ok? ==> r.value.name == name
    ensures r.Ok? ==> exists i :: 0 <= i < |doc| && doc[i] == r.value && NoneNamedBefore(doc, name, i)
    ensures r.Err? ==> r.error == MissingStream(name)
  {
    if |doc| == 0 then Err(MissingStream(name))
    else if doc[0].name == name then
      assert NoneNamedBefore(doc, name, 0);
      Ok(doc[0])
    else
      var r := FindStream(doc[1..], name);
      if r.Ok? then
        assert exists i :: 0 <= i < |doc| && doc[i] == r.value && NoneNamedBefore(doc, name, i) by {
          var i :| 0 <= i < |doc[1..]| && doc[1..][i] == r.value && NoneNamedBefore(doc[1..], name, i);
          assert doc[i + 1] == r.value && NoneNamedBefore(doc, name, i + 1);
        }
        r
      else
        assert forall i :: 1 <= i < |doc| ==> doc[i] == doc[1..][i - 1];
        r
  }

  /** No stream before position `i` is named `name`. */
  predicate NoneNamedBefore(doc: Document, name: string, i: int)
    requires 0 <= i <= |doc|
  {
    forall j :: 0 <= j < i ==> doc[j].name != name
  }

  /** Streams appended after a matching one never change the lookup: in
      particular a duplicate `ExpMarkers` stream is ignored, not merged. */
  lemma {:induction false} LaterStreamsIgnored(doc: Document, more: Document, name: string)
    requires FindStream(doc, name).Ok?
    ensures FindStream(doc + more, name) == FindStream(doc, name)
  {
    assert (doc + more)[0] == doc[0];
    if doc[0].name != name {
      assert (doc + more)[1..] == doc[1..] + more;
      LaterStreamsIgnored(doc[1..], more, name);
    }
  }

  /** The lookup result depends only on the first stream of the name: the
      result of a document with a stream `s` at the first matching position is `s`. */
  lemma FirstMatchWins(before: Document, s: Stream, after: Document)
    requires forall j :: 0 <= j < |before| ==> before[j].name != s.name
    ensures FindStream(before + [s] + after, s.name) == Ok(s)
  {
    var doc := before + [s] + after;
    assert doc[|before|] == s;
    var r := FindStream(doc, s.name);
    var i :| 0 <= i < |doc| && doc[i] == r.value && NoneNamedBefore(doc, s.name, i);
  }
}
