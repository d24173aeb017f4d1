/** `on_transcription` of transcribe.py and the module-level set
    `displayed_segments`: of each batch of segments the server sends, the
    completed ones are printed, stripped, one per line, each identity
    `(start, end, text)` at most once over the whole session. A Python
    set finds `True == 1` and `False == 0`, so identities are kept by the
    representatives `SetKey` gives.

    Segments are JSON objects. `seg.get(key)` of a missing key is `None`,
    and `seg.get("completed", False)` is tested for Python truth. Two ways
    the callback can raise are kept: an identity holding a list or an
    object cannot be hashed (`TypeError` at the membership test), and a
    segment whose `text` is missing or not a string fails at
    `seg["text"].strip()` after its identity was added. Either ends the
    call; the model reports it as `false`. */
module Transcribe {
  import opened Base
  import opened Text

  type Segment = map<string, Json>

  /** `(seg.get("start"), seg.get("end"), seg.get("text"))`. */
  type SegmentId = (Json, Json, Json)

  /** `seg.get(key)`. */
  function Field(seg: Segment, key: string): Json
  {
    if key in seg then seg[key] else JNull
  }

  /** Python truth of a decoded JSON value. */
  predicate Truthy(j: Json)
  {
    if j.JBool? then j.b
    else if j.JInt? then j.i != 0
    else if j.JStr? then j.s != ""
    else if j.JList? then j.items != []
    else if j.JObject? then j.fields != map[]
    else false
  }

  predicate Completed(seg: Segment)
  {
    Truthy(Field(seg, "completed"))
  }

  /** Python's `==` on the values an identity can hold when it is
      hashable: `None`, booleans, integers and strings, where `True == 1`
      and `False == 0`. */
  predicate PyEq(a: Json, b: Json)
  {
    if a.JBool? && b.JInt? then b.i == (if a.b then 1 else 0)
    else if a.JInt? && b.JBool? then a.i == (if b.b then 1 else 0)
    else a == b
  }

  /** The representative a Python set stores for a value: a boolean is
      the integer equal to it, anything else is itself. */
  function SetKey(j: Json): (r: Json)
    ensures !r.JBool?
    ensures !j.JBool? ==> r == j
  {
    if j.JBool? then JInt(if j.b then 1 else 0) else j
  }

  /** Two values share a representative exactly when Python finds them
      equal, so the set of representatives behaves like the Python set. */
  lemma SetKeyEq(a: Json, b: Json)
    requires !a.JList? && !a.JObject? && !b.JList? && !b.JObject?
    ensures SetKey(a) == SetKey(b) <==> PyEq(a, b)
  {
  }

  /** `(seg.get("start"), seg.get("end"), seg.get("text"))`, by the
      representatives a Python set compares it by. */
  function Id(seg: Segment): (id: SegmentId)
    ensures Field(seg, "text").JStr? ==> id.2 == Field(seg, "text")
  {
    (SetKey(Field(seg, "start")), SetKey(Field(seg, "end")), SetKey(Field(seg, "text")))
  }

  /** Lists and objects are unhashable, and so is a tuple holding one. */
  predicate Hashable(id: SegmentId)
  {
    && !id.0.JList? && !id.0.JObject?
    && !id.1.JList? && !id.1.JObject?
    && !id.2.JList? && !id.2.JObject?
  }

  // ---------------------------------------------------------------------
  // The callback, as a function of what was seen before

  /** The identities seen, the lines printed by the call, and whether it
      returned without raising. */
  datatype Outcome = Outcome(seen: set<SegmentId>, printed: seq<string>, ok: bool)

  /** One segment of the loop. */
  function Step(o: Outcome, seg: Segment): (r: Outcome)
    ensures o.seen <= r.seen <= o.seen + {Id(seg)}
    ensures r.seen != o.seen ==> Completed(seg) && Id(seg) !in o.seen
  {
    if !Completed(seg) then o
    else if !Hashable(Id(seg)) then o.(ok := false)
    else if Id(seg) in o.seen then o
    else
      var seen := o.seen + {Id(seg)};
      var text := Field(seg, "text");
      if text.JStr? then Outcome(seen, o.printed + [Strip(text.s)], true)
      else Outcome(seen, o.printed, false)
  }

  /** The loop over `segments`, stopped by the first segment that raises. */
  function Run(seen: set<SegmentId>, segments: seq<Segment>): Outcome
    decreases |segments|
  {
    if segments == [] then Outcome(seen, [], true)
    else
      var o := Run(seen, segments[..|segments| - 1]);
      if o.ok then Step(o, segments[|segments| - 1]) else o
  }

  /** Once a segment has raised, the rest of the batch is not looked at. */
  lemma {:induction false} RunStops(seen: set<SegmentId>, segments: seq<Segment>, i: nat)
    requires i <= |segments| && !Run(seen, segments[..i]).ok
    ensures Run(seen, segments) == Run(seen, segments[..i])
    decreases |segments| - i
  {
    if i < |segments| {
      var s' := segments[..|segments| - 1];
      assert s'[..i] == segments[..i];
      RunStops(seen, s', i);
    } else {
      assert segments[..i] == segments;
    }
  }

  // ---------------------------------------------------------------------
  // The listener

  /** The identities printed for are distinct and all displayed. */
  ghost predicate Tracks(shown: seq<SegmentId>, displayed: set<SegmentId>)
  {
    && (forall i, j :: 0 <= i < j < |shown| ==> shown[i] != shown[j])
    && (forall i :: 0 <= i < |shown| ==> shown[i] in displayed)
  }

  /** Printing for an identity not displayed before, and displaying it,
      keeps every identity printed for at most once. */
  lemma TracksAdd(shown: seq<SegmentId>, displayed: set<SegmentId>, id: SegmentId)
    requires Tracks(shown, displayed) && id !in displayed
    ensures Tracks(shown + [id], displayed + {id})
  {
    var s := shown + [id];
    forall i, j | 0 <= i < j < |s| ensures s[i] != s[j] {
      if j == |shown| {
        assert s[i] == shown[i] && shown[i] in displayed;
      } else {
        assert s[i] == shown[i] && s[j] == shown[j];
      }
    }
  }

  class Listener {
    /** `displayed_segments`. */
    var displayedSegments: set<SegmentId>
    /** Every line printed so far. */
    var output: seq<string>
    /** The identity each printed line was printed for. */
    ghost var shown: seq<SegmentId>

    /** Every printed line belongs to a distinct identity, each of those
        identities is in `displayed_segments`, and the line is the
        stripped text of its identity. */
    ghost predicate Valid()
      reads this
    {
      && |shown| == |output| && Tracks(shown, displayedSegments)
      && (forall i :: 0 <= i < |output| ==> shown[i].2.JStr? && output[i] == Strip(shown[i].2.s))
    }

    constructor()
      ensures Valid() && displayedSegments == {} && output == [] && shown == []
    {
      displayedSegments := {};
      output := [];
      shown := [];
    }

    /** `on_transcription(text, segments)`: the `text` argument is not
        used. */
    method OnTranscription(segments: seq<Segment>) returns (ok: bool)
      requires Valid()
      modifies this
      ensures Valid()
      ensures var o := Run(old(displayedSegments), segments);
        && displayedSegments == o.seen
        && output == old(output) + o.printed
        && ok == o.ok
      ensures old(shown) <= shown
      ensures forall i :: |old(shown)| <= i < |shown| ==> shown[i] !in old(displayedSegments)
    {
      ghost var seen0 := displayedSegments;
      ghost var output0 := output;
      ghost var shown0 := shown;
      ghost var o := Outcome(seen0, [], true);
      for i := 0 to |segments|
        invariant Valid()
        invariant o == Run(seen0, segments[..i]) && o.ok
        invariant displayedSegments == o.seen && output == output0 + o.printed
        invariant shown0 <= shown
        invariant forall k :: |shown0| <= k < |shown| ==> shown[k] !in seen0
      {
        var seg := segments[i];
        RunNext(seen0, segments, i);
        RunGrows(seen0, segments[..i]);
        StepShift(o, seg);
        ghost var r := Step(Outcome(o.seen, [], true), seg);
        assert output0 + o.printed + r.printed == output0 + (o.printed + r.printed);
        var absorbed := Absorb(seg);
        o := Step(o, seg);
        if !absorbed {
          RunStops(seen0, segments, i + 1);
          return false;
        }
      }
      assert segments[..|segments|] == segments;
      return true;
    }

    /** The body of the loop for one segment. */
    method Absorb(seg: Segment) returns (ok: bool)
      requires Valid()
      modifies this
      ensures Valid()
      ensures var r := Step(Outcome(old(displayedSegments), [], true), seg);
        && displayedSegments == r.seen
        && output == old(output) + r.printed
        && ok == r.ok
      ensures || shown == old(shown)
              || (shown == old(shown) + [Id(seg)] && Id(seg) !in old(displayedSegments))
    {
      assert output + [] == output;
      if Truthy(Field(seg, "completed")) {
        var id := Id(seg);
        if !Hashable(id) {
          return false;
        }
        if id !in displayedSegments {
          TracksAdd(shown, displayedSegments, id);
          displayedSegments := displayedSegments + {id};
          var text := Field(seg, "text");
          if !text.JStr? {
            return false;
          }
          assert [] + [Strip(text.s)] == [Strip(text.s)];
          output := output + [Strip(text.s)];
          shown := shown + [id];
        }
      }
      return true;
    }
  }

  /** A step appends its lines to those printed before it. */
  lemma StepShift(o: Outcome, seg: Segment)
    requires o.ok
    ensures Step(o, seg) ==
      var r := Step(Outcome(o.seen, [], true), seg);
      Outcome(r.seen, o.printed + r.printed, r.ok)
  {
    var id, text := Id(seg), Field(seg, "text");
    if Completed(seg) && Hashable(id) && id !in o.seen && text.JStr? {
      assert o.printed + [Strip(text.s)] == o.printed + ([] + [Strip(text.s)]);
    } else if Completed(seg) && Hashable(id) && id !in o.seen {
      assert o.printed == o.printed + [];
    } else {
      assert o.printed == o.printed + [];
    }
  }

  /** The loop after `i + 1` segments is one more step after `i`. */
  lemma RunNext(seen: set<SegmentId>, segments: seq<Segment>, i: nat)
    requires i < |segments|
    ensures Run(seen, segments[..i + 1]) ==
      var o := Run(seen, segments[..i]);
      if o.ok then Step(o, segments[i]) else o
  {
    assert segments[..i + 1][..i] == segments[..i];
  }

  // ---------------------------------------------------------------------
  // What the callback promises

  /** `displayed_segments` only grows. */
  lemma {:induction false} RunGrows(seen: set<SegmentId>, segments: seq<Segment>)
    ensures seen <= Run(seen, segments).seen
    decreases |segments|
  {
    if segments != [] {
      RunGrows(seen, segments[..|segments| - 1]);
    }
  }

  /** After a call that did not raise, every completed segment of the
      batch has its identity in `displayed_segments`. */
  lemma {:induction false} RunCoversCompleted(seen: set<SegmentId>, segments: seq<Segment>, j: nat)
    requires j < |segments| && Completed(segments[j]) && Run(seen, segments).ok
    ensures Id(segments[j]) in Run(seen, segments).seen
    decreases |segments|
  {
    var init := segments[..|segments| - 1];
    var o := Run(seen, init);
    if j < |init| {
      assert init[j] == segments[j];
      RunCoversCompleted(seen, init, j);
    }
  }

  /** Anywhere in a batch, a segment whose identity was displayed before
      the call, or by an earlier completed segment of the same batch,
      prints no line. */
  lemma RepeatAddsNoLine(seen: set<SegmentId>, segments: seq<Segment>, j: nat)
    requires j < |segments|
    requires || Id(segments[j]) in seen
             || exists k :: 0 <= k < j && Completed(segments[k]) && Id(segments[k]) == Id(segments[j])
    ensures Run(seen, segments[..j + 1]).printed == Run(seen, segments[..j]).printed
  {
    var o := Run(seen, segments[..j]);
    RunNext(seen, segments, j);
    if o.ok {
      if Id(segments[j]) in seen {
        RunGrows(seen, segments[..j]);
      } else {
        var k :| 0 <= k < j && Completed(segments[k]) && Id(segments[k]) == Id(segments[j]);
        assert segments[..j][k] == segments[k];
        RunCoversCompleted(seen, segments[..j], k);
      }
    }
  }

  /** A call prints no more lines than it adds identities to
      `displayed_segments`. */
  lemma {:induction false} LinesAtMostNewIds(seen: set<SegmentId>, segments: seq<Segment>)
    ensures |Run(seen, segments).printed| <= |Run(seen, segments).seen - seen|
    decreases |segments|
  {
    if segments != [] {
      var init := segments[..|segments| - 1];
      var seg := segments[|segments| - 1];
      var o := Run(seen, init);
      LinesAtMostNewIds(seen, init);
      if o.ok {
        var r := Step(o, seg);
        if r.seen != o.seen {
          RunGrows(seen, init);
          assert Id(seg) !in o.seen && r.seen == o.seen + {Id(seg)};
          assert r.seen - seen == (o.seen - seen) + {Id(seg)};
        } else {
          assert r.printed == o.printed;
        }
      }
    }
  }

  /** A segment whose identity was displayed before is not printed again,
      and neither is a second copy of a segment within one batch. */
  lemma RepeatNotPrinted(seen: set<SegmentId>, seg: Segment)
    requires Completed(seg) && Hashable(Id(seg)) && Field(seg, "text").JStr?
    requires Id(seg) !in seen
    ensures Run(seen, [seg, seg]) == Outcome(seen + {Id(seg)}, [Strip(Field(seg, "text").s)], true)
    ensures Run(seen + {Id(seg)}, [seg]) == Outcome(seen + {Id(seg)}, [], true)
  {
    assert [seg, seg][..1] == [seg];
    assert [seg][..0] == [];
    assert Run(seen, [seg]) == Outcome(seen + {Id(seg)}, [Strip(Field(seg, "text").s)], true);
  }

  /** Two completed segments whose start, end and text Python finds
      equal (`True` standing for `1`, `False` for `0`) share one entry of
      `displayed_segments`: the second prints nothing. */
  lemma PyEqualSegmentsPrintOnce(seen: set<SegmentId>, a: Segment, b: Segment)
    requires Completed(a) && Completed(b) && Hashable(Id(a)) && Field(a, "text").JStr?
    requires Id(a) !in seen
    requires PyEq(Field(a, "start"), Field(b, "start")) && PyEq(Field(a, "end"), Field(b, "end"))
    requires PyEq(Field(a, "text"), Field(b, "text"))
    ensures Run(seen, [a, b]) == Outcome(seen + {Id(a)}, [Strip(Field(a, "text").s)], true)
  {
    SetKeyEq(Field(a, "start"), Field(b, "start"));
    SetKeyEq(Field(a, "end"), Field(b, "end"));
    SetKeyEq(Field(a, "text"), Field(b, "text"));
    assert Id(a) == Id(b);
    assert [a, b][..1] == [a];
    assert [a][..0] == [];
    assert Run(seen, [a]) == Outcome(seen + {Id(a)}, [Strip(Field(a, "text").s)], true);
  }

  /** The identities of a batch. */
  function Ids(segments: seq<Segment>): set<SegmentId>
    decreases |segments|
  {
    if segments == [] then {} else Ids(segments[..|segments| - 1]) + {Id(segments[|segments| - 1])}
  }

  lemma {:induction false} IdsHas(segments: seq<Segment>, x: SegmentId)
    ensures x in Ids(segments) <==> exists j :: 0 <= j < |segments| && Id(segments[j]) == x
    decreases |segments|
  {
    if segments != [] {
      var init := segments[..|segments| - 1];
      IdsHas(init, x);
      if exists j :: 0 <= j < |init| && Id(init[j]) == x {
        var j :| 0 <= j < |init| && Id(init[j]) == x;
        assert segments[j] == init[j];
      }
      if exists j :: 0 <= j < |segments| && Id(segments[j]) == x {
        var j :| 0 <= j < |segments| && Id(segments[j]) == x;
        if j < |init| {
          assert init[j] == segments[j];
        }
      }
    }
  }

  /** The stripped texts of a batch whose texts are all strings, in
      order. */
  function Lines(segments: seq<Segment>): (r: seq<string>)
    requires forall j :: 0 <= j < |segments| ==> Field(segments[j], "text").JStr?
    ensures |r| == |segments|
    decreases |segments|
  {
    if segments == [] then []
    else Lines(segments[..|segments| - 1]) + [Strip(Field(segments[|segments| - 1], "text").s)]
  }

  /** A batch of new, completed segments with distinct identities and
      string texts is printed whole, in order, each text stripped. */
  lemma {:induction false} FreshBatchPrinted(seen: set<SegmentId>, segments: seq<Segment>)
    requires forall j :: 0 <= j < |segments| ==>
      Completed(segments[j]) && Hashable(Id(segments[j])) && Field(segments[j], "text").JStr?
      && Id(segments[j]) !in seen
    requires forall i, j :: 0 <= i < j < |segments| ==> Id(segments[i]) != Id(segments[j])
    ensures Run(seen, segments) == Outcome(seen + Ids(segments), Lines(segments), true)
    decreases |segments|
  {
    if segments != [] {
      var init := segments[..|segments| - 1];
      var last := segments[|segments| - 1];
      assert forall j :: 0 <= j < |init| ==> init[j] == segments[j];
      FreshBatchPrinted(seen, init);
      assert Id(last) !in Ids(init) by {
        IdsHas(init, Id(last));
      }
      var o := Run(seen, init);
      var line := Strip(Field(last, "text").s);
      assert Step(o, last) == Outcome(o.seen + {Id(last)}, o.printed + [line], true);
      assert Lines(segments) == Lines(init) + [line];
      assert Ids(segments) == Ids(init) + {Id(last)};
      assert Run(seen, segments) == Step(o, last);
    }
  }
}
