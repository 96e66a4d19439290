/** The measurement state of the viewer (src/main.js): the pending first
    point, the id counter, the committed measurements and the scene objects
    in measurementsGroup, and the transitions addMeasurementPoint,
    clearMeasurements and the cancel in setMeasureMode(false) make on them.
    Distances are kept squared. */
module Measurements {
  import opened Vectors
  import opened Options

  /** `{ id, distance }`, with the distance squared. */
  datatype Measurement = Measurement(id: nat, distanceSq: real)

  /** The objects addMeasurementPoint puts into measurementsGroup: the
      orange start marker, the blue end marker, the red line and the label
      "M<id>: <distance> mm". */
  datatype Artifact =
    | StartMarker(at: Vec3)
    | EndMarker(at: Vec3)
    | Segment(from: Vec3, to: Vec3)
    | Label(id: nat, distanceSq: real)

  /** pendingMeasurement (its point), measurementId, measurements and the
      children of measurementsGroup. */
  datatype MeasureState = MeasureState(pending: Option<Vec3>, nextId: nat,
                                       measurements: seq<Measurement>, children: seq<Artifact>)

  /** The k-th committed measurement and its four objects: start marker,
      end marker, the line between them and the label with its id, and the
      stored distance is the squared distance between the two markers. */
  predicate CommittedAt(children: seq<Artifact>, ms: seq<Measurement>, k: int)
  {
    0 <= k < |ms| && 4 * k + 3 < |children| &&
    var a, b := children[4 * k], children[4 * k + 1];
    a.StartMarker? && b.EndMarker? &&
    children[4 * k + 2] == Segment(a.at, b.at) &&
    ms[k] == Measurement(k + 1, DistSq(a.at, b.at)) &&
    children[4 * k + 3] == Label(k + 1, DistSq(a.at, b.at))
  }

  /** The counter, the list and the pending slot agree, and the scene holds
      four objects per measurement followed by the pending start marker. */
  predicate Consistent(s: MeasureState)
  {
    s.nextId == |s.measurements| + 1 &&
    |s.children| == 4 * |s.measurements| + (if s.pending.Some? then 1 else 0) &&
    (forall k :: 0 <= k < |s.measurements| ==> CommittedAt(s.children, s.measurements, k)) &&
    (s.pending.Some? ==> s.children[|s.children| - 1] == StartMarker(s.pending.value))
  }

  /** The state clearMeasurements leaves. */
  function Cleared(): (s: MeasureState)
    ensures Consistent(s)
  {
    MeasureState(None, 1, [], [])
  }

  /** addMeasurementPoint: a first point is stored and gets a start marker;
      a second one commits a measurement with the current id, adds end
      marker, line and label, and bumps the counter. */
  function AddPoint(s: MeasureState, p: Vec3): (t: MeasureState)
    ensures s.pending.None? ==>
              t.pending == Some(p) && t.nextId == s.nextId && t.measurements == s.measurements &&
              |t.children| == |s.children| + 1
    ensures s.pending.Some? ==>
              t.pending.None? && t.nextId == s.nextId + 1 &&
              t.measurements == s.measurements + [Measurement(s.nextId, DistSq(s.pending.value, p))] &&
              |t.children| == |s.children| + 3
  {
    match s.pending
    case None =>
      s.(pending := Some(p), children := s.children + [StartMarker(p)])
    case Some(q) =>
      var d := DistSq(q, p);
      s.(pending := None, nextId := s.nextId + 1,
         measurements := s.measurements + [Measurement(s.nextId, d)],
         children := s.children + [EndMarker(p), Segment(q, p), Label(s.nextId, d)])
  }

  /** Committed measurements stay as they were when objects are appended. */
  lemma CommittedExtends(c: seq<Artifact>, ms: seq<Measurement>, c': seq<Artifact>, ms': seq<Measurement>, k: int)
    requires CommittedAt(c, ms, k)
    requires |c| <= |c'| && c'[..|c|] == c && |ms| <= |ms'| && ms'[..|ms|] == ms
    ensures CommittedAt(c', ms', k)
  {
    assert c'[4 * k] == c[4 * k] && c'[4 * k + 1] == c[4 * k + 1];
    assert c'[4 * k + 2] == c[4 * k + 2] && c'[4 * k + 3] == c[4 * k + 3];
    assert ms'[k] == ms[k];
  }

  /** Adding a point keeps the state consistent. */
  lemma {:induction false} AddPointKeepsConsistent(s: MeasureState, p: Vec3)
    requires Consistent(s)
    ensures Consistent(AddPoint(s, p))
  {
    var t := AddPoint(s, p);
    forall k | 0 <= k < |s.measurements|
      ensures CommittedAt(t.children, t.measurements, k)
    {
      CommittedExtends(s.children, s.measurements, t.children, t.measurements, k);
    }
    if s.pending.Some? {
      var n := |s.measurements|;
      var q := s.pending.value;
      assert t.children[4 * n] == StartMarker(q);
      assert t.children[4 * n + 1] == EndMarker(p);
      assert CommittedAt(t.children, t.measurements, n);
    }
  }

  /** The cancel in setMeasureMode(false): the pending point and its marker
      go. */
  function CancelPending(s: MeasureState): (t: MeasureState)
    ensures t.pending.None? && t.nextId == s.nextId && t.measurements == s.measurements
  {
    if s.pending.Some? && |s.children| > 0 then
      s.(pending := None, children := s.children[..|s.children| - 1])
    else s.(pending := None)
  }

  /** Cancelling removes exactly the pending start marker and keeps the state
      consistent; committed measurements and the counter are unchanged. */
  lemma {:induction false} CancelPendingRemovesOnlyTheMarker(s: MeasureState)
    requires Consistent(s)
    ensures Consistent(CancelPending(s))
    ensures s.pending.Some? ==> s.children == CancelPending(s).children + [StartMarker(s.pending.value)]
    ensures s.pending.None? ==> CancelPending(s) == s
  {
    var t := CancelPending(s);
    if s.pending.Some? {
      forall k | 0 <= k < |s.measurements|
        ensures CommittedAt(t.children, t.measurements, k)
      {
        assert CommittedAt(s.children, s.measurements, k);
        assert t.children[4 * k] == s.children[4 * k] && t.children[4 * k + 1] == s.children[4 * k + 1];
        assert t.children[4 * k + 2] == s.children[4 * k + 2] && t.children[4 * k + 3] == s.children[4 * k + 3];
      }
      assert s.children == t.children + [s.children[|s.children| - 1]];
    }
  }

  /** The points from a sequence of measuring clicks, applied in order. */
  function AddPoints(s: MeasureState, ps: seq<Vec3>): MeasureState
  {
    if |ps| == 0 then s else AddPoint(AddPoints(s, ps[..|ps| - 1]), ps[|ps| - 1])
  }

  /** From a cleared state, clicks pair up: after the points ps there are
      |ps| / 2 measurements with ids 1, 2, ... whose distances are those of
      consecutive pairs, and a pending point exactly when |ps| is odd. */
  lemma {:induction false} ClicksPairUp(ps: seq<Vec3>)
    ensures var s := AddPoints(Cleared(), ps);
            Consistent(s) && |s.measurements| == |ps| / 2 &&
            (s.pending.Some? <==> |ps| % 2 == 1) &&
            (s.pending.Some? ==> s.pending.value == ps[|ps| - 1]) &&
            forall k :: 0 <= k < |ps| / 2 ==> s.measurements[k] == Measurement(k + 1, DistSq(ps[2 * k], ps[2 * k + 1]))
  {
    if |ps| > 0 {
      var init := ps[..|ps| - 1];
      var p := ps[|ps| - 1];
      ClicksPairUp(init);
      var s := AddPoints(Cleared(), init);
      AddPointKeepsConsistent(s, p);
      var t := AddPoint(s, p);
      assert t == AddPoints(Cleared(), ps);
      forall k | 0 <= k < |ps| / 2
        ensures t.measurements[k] == Measurement(k + 1, DistSq(ps[2 * k], ps[2 * k + 1]))
      {
        if k < |init| / 2 {
          assert t.measurements[k] == s.measurements[k];
          assert init[2 * k] == ps[2 * k] && init[2 * k + 1] == ps[2 * k + 1];
        } else {
          assert |ps| % 2 == 0 && 2 * k + 1 == |ps| - 1;
          assert s.pending.value == init[|init| - 1] == ps[2 * k];
        }
      }
    }
  }

  /** Ids in the list run 1..n in order. */
  lemma IdsRunInOrder(s: MeasureState)
    requires Consistent(s)
    ensures forall k :: 0 <= k < |s.measurements| ==> s.measurements[k].id == k + 1
    ensures s.nextId == |s.measurements| + 1
  {
    forall k | 0 <= k < |s.measurements|
      ensures s.measurements[k].id == k + 1
    {
      assert CommittedAt(s.children, s.measurements, k);
    }
  }

  /** What updateMeasurementsList shows. */
  datatype ListView = NoMeasurements | PickSecondPoint | Rows(items: seq<Measurement>)

  /** updateMeasurementsList: the rows when there are measurements,
      otherwise a prompt for the second point while one is pending, or the
      empty notice. */
  function ListOf(s: MeasureState): (v: ListView)
    ensures v.Rows? <==> |s.measurements| > 0
    ensures v.Rows? ==> v.items == s.measurements
    ensures v == PickSecondPoint <==> |s.measurements| == 0 && s.pending.Some?
  {
    if |s.measurements| == 0 then
      if s.pending.Some? then PickSecondPoint else NoMeasurements
    else Rows(s.measurements)
  }
}
