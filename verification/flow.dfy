/** The signal-flow analysis of `btor/mod.rs`: the assignments of every frame,
    stamped with the frame's step, grouped per signal name, with a signal's
    entry recorded only when its value changes. */
module Flow {
  import opened Text
  import opened Wrappers
  import opened Assignments
  import opened Grammar

  /** Which part of each frame a flow follows (`FlowType`). */
  datatype FlowType = State | Input

  /** One assignment as the analysis sees it: the step of the frame it was
      read in, and the assignment itself. */
  datatype Point = Point(step: nat, assignment: Assignment)

  function Value(p: Point): nat
  {
    GetValue(p.assignment)
  }

  /** The assignments a flow takes from one frame: the input part's model,
      or the state part's model when there is one. */
  function Part(f: Frame, flowType: FlowType): (r: seq<Assignment>)
    ensures flowType == Input ==> r == f.inputPart.model.assignments
    ensures flowType == State && f.statePart.None? ==> r == []
    ensures flowType == State && f.statePart.Some? ==> r == f.statePart.value.model.assignments
  {
    match flowType
    case Input => f.inputPart.model.assignments
    case State => if f.statePart.Some? then f.statePart.value.model.assignments else []
  }

  /** `repeat(frame).zip(assignments)`, reduced to what is used of the frame:
      its input step. */
  function Stamp(step: nat, assignments: seq<Assignment>): (r: seq<Point>)
    ensures |r| == |assignments|
    ensures forall i | 0 <= i < |r| :: r[i].step == step && r[i].assignment == assignments[i]
  {
    seq(|assignments|, i requires 0 <= i < |assignments| => Point(step, assignments[i]))
  }

  /** The iterator `analyze_input_flow` / `analyze_state_flow` build: the
      frames' parts flattened in order, every point stamped with the INPUT
      step of its frame, also for state assignments. */
  function Points(frames: seq<Frame>, flowType: FlowType): (r: seq<Point>)
    ensures r == [] <==> forall j | 0 <= j < |frames| :: Part(frames[j], flowType) == []
    decreases |frames|
  {
    if |frames| == 0 then []
    else
      var n := |frames| - 1;
      var earlier := Points(frames[..n], flowType);
      assert forall j | 0 <= j < n :: frames[..n][j] == frames[j];
      earlier + Stamp(frames[n].inputPart.step, Part(frames[n], flowType))
  }

  /** Assignment `i` of frame `j` comes right after the points of the earlier
      frames, stamped with frame `j`'s input step. */
  lemma PointsAt(frames: seq<Frame>, flowType: FlowType, j: nat, i: nat)
    requires j < |frames| && i < |Part(frames[j], flowType)|
    ensures var k := |Points(frames[..j], flowType)| + i;
            && k < |Points(frames, flowType)|
            && Points(frames, flowType)[k] == Point(frames[j].inputPart.step, Part(frames[j], flowType)[i])
  {
    var upTo := frames[..j + 1];
    var block := Stamp(frames[j].inputPart.step, Part(frames[j], flowType));
    PointsUpTo(frames, flowType, j);
    PointsPrefix(frames, flowType, j + 1);
    BlockAt(Points(frames, flowType), Points(upTo, flowType), Points(frames[..j], flowType), block, i);
  }

  /** The points of the frames up to `j` end with frame `j`'s points. */
  lemma PointsUpTo(frames: seq<Frame>, flowType: FlowType, j: nat)
    requires j < |frames|
    ensures Points(frames[..j + 1], flowType) ==
              Points(frames[..j], flowType) + Stamp(frames[j].inputPart.step, Part(frames[j], flowType))
  {
    var upTo := frames[..j + 1];
    assert upTo[..j] == frames[..j] && upTo[j] == frames[j];
  }


  /** The points of the first `m` frames begin the points of all of them. */
  lemma {:induction false} PointsPrefix(frames: seq<Frame>, flowType: FlowType, m: nat)
    requires m <= |frames|
    ensures Points(frames[..m], flowType) <= Points(frames, flowType)
    decreases |frames|
  {
    if m < |frames| {
      var init := frames[..|frames| - 1];
      assert init[..m] == frames[..m];
      PointsPrefix(init, flowType, m);
      PointsExtend(frames, flowType);
    } else {
      assert frames[..m] == frames;
    }
  }

  /** The points of all frames but the last begin the points of all. */
  lemma PointsExtend(frames: seq<Frame>, flowType: FlowType)
    requires |frames| > 0
    ensures Points(frames[..|frames| - 1], flowType) <= Points(frames, flowType)
  {
  }

  /** Conversely every point is an assignment of some frame's part, stamped
      with that frame's input step. */
  lemma {:induction false} PointsFrom(frames: seq<Frame>, flowType: FlowType, k: nat)
    requires k < |Points(frames, flowType)|
    ensures exists j | 0 <= j < |frames| ::
              && Points(frames, flowType)[k].step == frames[j].inputPart.step
              && Points(frames, flowType)[k].assignment in Part(frames[j], flowType)
    decreases |frames|
  {
    var n := |frames| - 1;
    var init := frames[..n];
    var earlier := Points(init, flowType);
    var last := Stamp(frames[n].inputPart.step, Part(frames[n], flowType));
    assert Points(frames, flowType) == earlier + last;
    if k < |earlier| {
      PointsFrom(init, flowType, k);
      var j :| 0 <= j < |init| && earlier[k].step == init[j].inputPart.step
                && earlier[k].assignment in Part(init[j], flowType);
      assert init[j] == frames[j];
    } else {
      assert Points(frames, flowType)[k] == last[k - |earlier|];
    }
  }

  // ---------------------------------------------------------------------------
  // Collecting per signal

  /** The result of `collect_assignments`: the `BTreeMap` as its entries plus
      its keys in ascending order, and the largest step seen. */
  datatype Collected = Collected(series: map<string, seq<Point>>, names: seq<string>, maxStep: nat)

  /** The signal a point belongs to: its symbol, or else its position in the
      flattened iteration written in decimal. */
  function Key(p: Point, idx: nat): (r: string)
    ensures p.assignment.symbol.Some? ==> r == p.assignment.symbol.value
    ensures p.assignment.symbol.None? ==> AllDigits(r) && ValueIn(10, r) == idx
  {
    p.assignment.symbol.GetOr(NatToString(idx))
  }

  /** Unnamed assignments at different positions never share a signal. */
  lemma UnnamedKeysDiffer(p: Point, i: nat, q: Point, j: nat)
    requires p.assignment.symbol.None? && q.assignment.symbol.None? && i != j
    ensures Key(p, i) != Key(q, j)
  {
    if Key(p, i) == Key(q, j) {
      NatToStringInjective(i, j);
    }
  }

  /** Strictly ascending in the `String` order. */
  predicate Sorted(names: seq<string>)
  {
    forall i, j | 0 <= i < j < |names| :: Less(names[i], names[j])
  }

  /** `name` placed among ascending `names` before the first larger one. */
  function Insert(names: seq<string>, name: string): (r: seq<string>)
    ensures |r| == |names| + 1
    ensures forall x :: x in r <==> x == name || x in names
    decreases |names|
  {
    if |names| == 0 then [name]
    else if Less(name, names[0]) then [name] + names
    else [names[0]] + Insert(names[1..], name)
  }

  /** Inserting a new name keeps the keys ascending. */
  lemma {:induction false} InsertSorted(names: seq<string>, name: string)
    requires Sorted(names) && name !in names
    ensures Sorted(Insert(names, name))
    decreases |names|
  {
    if |names| > 0 && !Less(name, names[0]) {
      var tail := names[1..];
      assert Sorted(tail) by {
        forall i, j | 0 <= i < j < |tail|
          ensures Less(tail[i], tail[j])
        {
          assert tail[i] == names[i + 1] && tail[j] == names[j + 1];
        }
      }
      InsertSorted(tail, name);
      assert name != names[0];
      LessTotal(name, names[0]);
      var r := Insert(names, name);
      var rest := Insert(tail, name);
      assert r == [names[0]] + rest;
      forall i, j | 0 <= i < j < |r|
        ensures Less(r[i], r[j])
      {
        if i > 0 {
          assert r[i] == rest[i - 1] && r[j] == rest[j - 1];
        } else {
          assert r[j] == rest[j - 1] && r[j] in rest;
          if r[j] != name {
            var m :| 0 <= m < |tail| && tail[m] == r[j];
            assert names[m + 1] == r[j];
          }
        }
      }
    } else if |names| > 0 {
      var r := Insert(names, name);
      forall i, j | 0 <= i < j < |r|
        ensures Less(r[i], r[j])
      {
        if i > 0 {
          assert r[i] == names[i - 1] && r[j] == names[j - 1];
        } else if j > 1 {
          assert r[j] == names[j - 1];
          LessTransitive(name, names[0], names[j - 1]);
        }
      }
    }
  }

  /** One iteration of `collect_assignments`: raise the largest step, and
      append the point to its signal when the signal is new or its last
      recorded value differs. A repeated value leaves the map as it was. */
  function Record(c: Collected, idx: nat, p: Point): (r: Collected)
    ensures r.series.Keys == c.series.Keys + {Key(p, idx)}
    ensures var s := r.series[Key(p, idx)]; |s| > 0 && Value(s[|s| - 1]) == Value(p)
    ensures r.maxStep >= c.maxStep && r.maxStep >= p.step
    ensures r.maxStep == c.maxStep || r.maxStep == p.step
  {
    var maxStep := if p.step > c.maxStep then p.step else c.maxStep;
    var name := Key(p, idx);
    var entry := if name in c.series then c.series[name] else [];
    var pushed := if |entry| == 0 || Value(entry[|entry| - 1]) != Value(p) then entry + [p] else entry;
    var names := if name in c.series then c.names else Insert(c.names, name);
    Collected(c.series[name := pushed], names, maxStep)
  }

  /** `collect_assignments` over the points in order; the largest step
      starts at 1. */
  function Collect(points: seq<Point>): (r: Collected)
    ensures r.maxStep >= 1
    ensures r.series.Keys == {} <==> |points| == 0
    ensures |points| > 0 ==>
              Key(points[|points| - 1], |points| - 1) in r.series &&
              var s := r.series[Key(points[|points| - 1], |points| - 1)];
              |s| > 0 && Value(s[|s| - 1]) == Value(points[|points| - 1])
    decreases |points|
  {
    if |points| == 0 then Collected(map[], [], 1)
    else
      var n := |points| - 1;
      Record(Collect(points[..n]), n, points[n])
  }

  /** The largest step is at least 1, bounds every point's step, and is
      either 1 or the step of some point. */
  lemma {:induction false} CollectMaxStep(points: seq<Point>)
    ensures Collect(points).maxStep >= 1
    ensures forall i | 0 <= i < |points| :: points[i].step <= Collect(points).maxStep
    ensures Collect(points).maxStep == 1 ||
            exists i | 0 <= i < |points| :: points[i].step == Collect(points).maxStep
    decreases |points|
  {
    if |points| > 0 {
      var n := |points| - 1;
      CollectMaxStep(points[..n]);
      CollectStepOfLast(points);
      RunningMax(points, Collect(points[..n]).maxStep, Collect(points).maxStep);
    }
  }

  /** One step of a running maximum: if `before` is at least 1, bounds the
      steps of all points but the last and is 1 or one of them, then
      `after`, the larger of `before` and the last step, does the same for
      all points. */
  lemma RunningMax(points: seq<Point>, before: nat, after: nat)
    requires |points| > 0
    requires var n := |points| - 1;
             && before >= 1
             && (forall i | 0 <= i < n :: points[..n][i].step <= before)
             && (before == 1 || exists i | 0 <= i < n :: points[..n][i].step == before)
             && after == if points[n].step > before then points[n].step else before
    ensures after >= 1
    ensures forall i | 0 <= i < |points| :: points[i].step <= after
    ensures after == 1 || exists i | 0 <= i < |points| :: points[i].step == after
  {
    var n := |points| - 1;
    assert forall i | 0 <= i < n :: points[..n][i] == points[i];
    if before != 1 && points[n].step <= before {
      var i :| 0 <= i < n && points[..n][i].step == before;
      assert points[i].step == after;
    }
  }

  /** Recording a point raises the largest step to that point's step, if
      larger. */
  lemma CollectStepOfLast(points: seq<Point>)
    requires |points| > 0
    ensures var n := |points| - 1;
            var before := Collect(points[..n]).maxStep;
            Collect(points).maxStep == if points[n].step > before then points[n].step else before
  {
  }

  // ---------------------------------------------------------------------------
  // The reference description of a signal's series

  /** The points of signal `k`, in order. */
  function Keyed(points: seq<Point>, k: string): (r: seq<Point>)
    ensures |r| <= |points|
    decreases |points|
  {
    if |points| == 0 then []
    else
      var n := |points| - 1;
      Keyed(points[..n], k) + (if Key(points[n], n) == k then [points[n]] else [])
  }

  /** The points that change the value: the first one, and each whose value
      differs from the point just before it. */
  function Changes(ps: seq<Point>): (r: seq<Point>)
    ensures |ps| > 0 ==> |r| > 0 && Value(r[|r| - 1]) == Value(ps[|ps| - 1])
    decreases |ps|
  {
    if |ps| == 0 then []
    else
      var n := |ps| - 1;
      var earlier := Changes(ps[..n]);
      if n == 0 || Value(ps[n]) != Value(ps[n - 1]) then earlier + [ps[n]] else earlier
  }

  /** No two neighbours in a series carry the same value. */
  predicate Steady(ps: seq<Point>)
  {
    forall i | 0 < i < |ps| :: Value(ps[i]) != Value(ps[i - 1])
  }

  lemma {:induction false} ChangesSteady(ps: seq<Point>)
    ensures Steady(Changes(ps))
    decreases |ps|
  {
    if |ps| > 0 {
      var n := |ps| - 1;
      ChangesSteady(ps[..n]);
    }
  }

  /** Appending a point to a signal's points adds it to the changes exactly
      when its value differs from the last of them. */
  lemma ChangesSnoc(ps: seq<Point>, p: Point)
    ensures Changes(ps + [p]) ==
              if |ps| > 0 && Value(p) == Value(ps[|ps| - 1]) then Changes(ps) else Changes(ps) + [p]
  {
    var qs := ps + [p];
    assert qs[..|ps|] == ps;
    if |ps| > 0 {
      assert qs[|ps| - 1] == ps[|ps| - 1];
    }
  }

  /** What one iteration does to the series of signal `k`. */
  lemma RecordSeries(c: Collected, idx: nat, p: Point, k: string)
    ensures k in Record(c, idx, p).series <==> k in c.series || Key(p, idx) == k
    ensures Key(p, idx) != k && k in c.series ==> Record(c, idx, p).series[k] == c.series[k]
    ensures Key(p, idx) == k && k !in c.series ==> Record(c, idx, p).series[k] == [p]
    ensures Key(p, idx) == k && k in c.series && |c.series[k]| > 0 ==>
              Record(c, idx, p).series[k] ==
                if Value(p) == Value(c.series[k][|c.series[k]| - 1]) then c.series[k] else c.series[k] + [p]
  {
  }

  /** A signal is in the map exactly when some point belongs to it, and its
      series is the value changes of its points. */
  lemma {:induction false} CollectSeries(points: seq<Point>, k: string)
    ensures k in Collect(points).series <==> |Keyed(points, k)| > 0
    ensures k in Collect(points).series ==> Collect(points).series[k] == Changes(Keyed(points, k))
    decreases |points|
  {
    if |points| > 0 {
      var n := |points| - 1;
      var init := points[..n];
      CollectSeries(init, k);
      var c := Collect(init);
      var p := points[n];
      var before := Keyed(init, k);
      assert Collect(points) == Record(c, n, p);
      RecordSeries(c, n, p, k);
      if Key(p, n) == k {
        assert Keyed(points, k) == before + [p];
        ChangesSnoc(before, p);
        if |before| == 0 {
          assert before + [p] == [p];
          assert Changes([p]) == [p] by {
            assert [p][..0] == [];
          }
        }
      } else {
        assert Keyed(points, k) == before;
      }
    }
  }

  /** What the collection keeps true: the names are the map's keys in
      ascending order, and every series is non-empty with no repeated
      neighbouring value. */
  ghost predicate Valid(c: Collected)
  {
    && Sorted(c.names)
    && (forall k :: k in c.series <==> k in c.names)
    && (forall k | k in c.series :: |c.series[k]| > 0 && Steady(c.series[k]))
  }

  lemma {:induction false} CollectValid(points: seq<Point>)
    ensures Valid(Collect(points))
    decreases |points|
  {
    if |points| > 0 {
      var n := |points| - 1;
      CollectValid(points[..n]);
      RecordValid(Collect(points[..n]), n, points[n]);
    }
  }

  /** One iteration keeps the collection valid: a new signal's name goes in
      its place among the keys, and a point joins a series only when its
      value differs from the series' last. */
  lemma RecordValid(c: Collected, idx: nat, p: Point)
    requires Valid(c)
    ensures Valid(Record(c, idx, p))
  {
    var name := Key(p, idx);
    var r := Record(c, idx, p);
    if name !in c.series {
      InsertSorted(c.names, name);
    }
    forall k | k in r.series
      ensures |r.series[k]| > 0 && Steady(r.series[k])
    {
      RecordSeries(c, idx, p, k);
      if k == name && k in c.series && r.series[k] != c.series[k] {
        SteadySnoc(c.series[k], p);
      }
    }
  }

  /** A point whose value differs from the last of a steady series keeps it
      steady. */
  lemma SteadySnoc(ps: seq<Point>, p: Point)
    requires |ps| > 0 && Steady(ps) && Value(p) != Value(ps[|ps| - 1])
    ensures Steady(ps + [p])
  {
    var qs := ps + [p];
    forall i | 0 < i < |qs|
      ensures Value(qs[i]) != Value(qs[i - 1])
    {
      if i < |ps| {
        assert qs[i] == ps[i] && qs[i - 1] == ps[i - 1];
      }
    }
  }

  /** The series of a collected flow are made of the points collected from. */
  lemma {:induction false} SeriesFromPoints(points: seq<Point>, k: string, q: Point)
    requires k in Collect(points).series && q in Collect(points).series[k]
    ensures q in points
  {
    CollectSeries(points, k);
    ChangesWithin(Keyed(points, k), q);
    KeyedWithin(points, k, q);
  }

  lemma {:induction false} ChangesWithin(ps: seq<Point>, q: Point)
    requires q in Changes(ps)
    ensures q in ps
    decreases |ps|
  {
    var n := |ps| - 1;
    if q != ps[n] {
      ChangesWithin(ps[..n], q);
    }
  }

  lemma {:induction false} KeyedWithin(points: seq<Point>, k: string, q: Point)
    requires q in Keyed(points, k)
    ensures q in points
    decreases |points|
  {
    var n := |points| - 1;
    if q != points[n] {
      KeyedWithin(points[..n], k, q);
    }
  }

}
