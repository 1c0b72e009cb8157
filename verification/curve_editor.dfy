/** The curve editor's undoable keyframe commands: moving a selection of keys
    (with merging of consecutive moves), adding keys and removing keys.

    Curves are referenced through ids; each belongs to a knob whose
    "evaluate on change" flag the first redo of a move suppresses. */
module CurveEditor {
  import opened Common
  import opened Keyframes

  type CurveId = nat
  type KnobId = nat

  /** A curve as the editor sees it: owning knob, keyframes, the Y range values
      must stay in, and whether it belongs to a parametric knob. */
  datatype CurveGui = CurveGui(knob: KnobId, keys: seq<KeyFrame>, yMin: real, yMax: real, parametric: bool)

  type Curves = map<CurveId, CurveGui>

  predicate ValidCurves(cs: Curves) {
    forall id :: id in cs ==> Sorted(cs[id].keys)
  }

  /** `after` differs from `before` in keyframes only. */
  predicate OnlyKeysChanged(before: Curves, after: Curves) {
    && after.Keys == before.Keys
    && forall id :: id in before ==> after[id] == before[id].(keys := after[id].keys)
  }

  /** One selected key: the curve it lives on and the key as it was selected. */
  datatype KeyMove = KeyMove(curve: CurveId, key: KeyFrame)

  predicate KeysOn(cs: Curves, keys: seq<KeyMove>) {
    forall i :: 0 <= i < |keys| ==> keys[i].curve in cs
  }

  /** No two selected keys share a curve. */
  predicate DistinctCurves(keys: seq<KeyMove>) {
    forall i, j :: 0 <= i < j < |keys| ==> keys[i].curve != keys[j].curve
  }

  type Selection = set<(CurveId, KeyFrame)>

  datatype EditorState = EditorState(curves: Curves, selection: Selection, evaluateOnChange: map<KnobId, bool>)

  // ---------------------------------------------------------------- moving one key

  /** Where a key goes: shifted by dt in time, and by dv in value unless that
      leaves the curve's Y range, in which case the value is kept. */
  function MoveTarget(c: CurveGui, k: KeyFrame, dt: real, dv: real): (r: KeyFrame)
    ensures r.time == k.time + dt
    ensures c.yMin <= k.value + dv <= c.yMax ==> r.value == k.value + dv
    ensures !(c.yMin <= k.value + dv <= c.yMax) ==> r.value == k.value
  {
    var newY := k.value + dv;
    KeyFrame(k.time + dt, if newY > c.yMax then k.value else if newY < c.yMin then k.value else newY)
  }

  /** moveKey on one curve: on redo the key found at its original time goes
      to its target, on undo the key found at the target time goes back to
      exactly the original key. Returns the curve and the key's new index, or
      the curve's error (the source's exception). */
  function MoveKeyOnCurve(c: CurveGui, key: KeyFrame, dt: real, dv: real, isUndo: bool)
    : (r: Result<(CurveGui, nat), CurveError>)
    requires Sorted(c.keys)
    ensures r.Ok? ==> var c' := r.value.0;
      var dest := if isUndo then key else MoveTarget(c, key, dt, dv);
      var src := if isUndo then key.time + dt else key.time;
      && Sorted(c'.keys) && c' == c.(keys := c'.keys)
      && r.value.1 < |c'.keys| && c'.keys[r.value.1] == dest
      && src in Times(c.keys)
      && Times(c'.keys) == Times(c.keys) - {src} + {dest.time}
    ensures r.Ok? ==> forall k {:trigger k in r.value.0.keys} :: k in r.value.0.keys <==>
      k == (if isUndo then key else MoveTarget(c, key, dt, dv))
      || (k in c.keys && k.time != (if isUndo then key.time + dt else key.time))
    ensures (if isUndo then key.time + dt else key.time) !in Times(c.keys) ==> r == Err(IndexOutOfRange)
  {
    var target := MoveTarget(c, key, dt, dv);
    var src := if isUndo then target.time else key.time;
    var dest := if isUndo then key else target;
    assert src == if isUndo then key.time + dt else key.time;
    var index := KeyFrameIndex(c.keys, src);
    var moved := SetKeyFrameValueAndTime(c.keys, dest.time, dest.value, index);
    assert src !in Times(c.keys) ==> moved == Err(IndexOutOfRange);
    if moved.Err? then Err(moved.error)
    else
      assert 0 <= index < |c.keys| && c.keys[index].time == src;
      assert c.keys[index] in c.keys;
      Ok((c.(keys := moved.value.0), moved.value.1))
  }

  /** moveKey: moves the key of `m` on its curve, leaving other curves alone. */
  function MoveKey(cs: Curves, m: KeyMove, dt: real, dv: real, isUndo: bool)
    : (r: Result<(Curves, int), CurveError>)
    requires ValidCurves(cs) && m.curve in cs
    ensures r.Ok? <==> MoveKeyOnCurve(cs[m.curve], m.key, dt, dv, isUndo).Ok?
    ensures r.Ok? ==> var (c', j) := MoveKeyOnCurve(cs[m.curve], m.key, dt, dv, isUndo).value;
      r.value == (cs[m.curve := c'], j as int)
    ensures r.Ok? ==> ValidCurves(r.value.0) && OnlyKeysChanged(cs, r.value.0)
  {
    match MoveKeyOnCurve(cs[m.curve], m.key, dt, dv, isUndo)
    case Err(e) => Err(e)
    case Ok((c', j)) => Ok((cs[m.curve := c'], j))
  }

  /** MoveKey reads and writes only the curve of its key. */
  lemma MoveKeyFrame(cs: Curves, m: KeyMove, dt: real, dv: real, isUndo: bool, id: CurveId, x: CurveGui)
    requires ValidCurves(cs) && m.curve in cs && id in cs && id != m.curve && Sorted(x.keys)
    ensures var r, r' := MoveKey(cs, m, dt, dv, isUndo), MoveKey(cs[id := x], m, dt, dv, isUndo);
      && r.Ok? == r'.Ok?
      && (r.Ok? ==> r'.value == (r.value.0[id := x], r.value.1))
  {
    var c := cs[m.curve];
    assert cs[id := x][m.curve] == c;
    var r := MoveKey(cs, m, dt, dv, isUndo);
    if r.Ok? {
      assert cs[id := x][m.curve := r.value.0[m.curve]] == r.value.0[id := x];
    }
  }

  // ---------------------------------------------------------------- moving a selection

  function Reverse<T>(s: seq<T>): (r: seq<T>)
    ensures |r| == |s|
    ensures forall i :: 0 <= i < |s| ==> r[i] == s[|s| - 1 - i]
  {
    if |s| == 0 then [] else Reverse(s[1..]) + [s[0]]
  }

  /** Keys are visited front to back when moving left (dt < 0) and back to
      front otherwise, so that a moved key does not land on a selected key
      that has not moved yet. */
  function VisitOrder(keys: seq<KeyMove>, dt: real): (r: seq<KeyMove>)
    ensures |r| == |keys|
    ensures dt < 0.0 ==> r == keys
    ensures dt >= 0.0 ==> forall i :: 0 <= i < |keys| ==> r[i] == keys[|keys| - 1 - i]
  {
    if dt < 0.0 then keys else Reverse(keys)
  }

  /** Position in the visit order at which keys[i] is moved. */
  function VisitPosition(n: nat, i: nat, dt: real): (p: nat)
    requires i < n
    ensures p < n
  {
    if dt < 0.0 then i else n - 1 - i
  }

  lemma VisitPositionVisitsKey(keys: seq<KeyMove>, dt: real, i: nat)
    requires i < |keys|
    ensures VisitOrder(keys, dt)[VisitPosition(|keys|, i, dt)] == keys[i]
  {
    if dt >= 0.0 {
      var p := |keys| - 1 - i;
      assert VisitPosition(|keys|, i, dt) == p;
      assert VisitOrder(keys, dt)[p] == keys[|keys| - 1 - p];
    }
  }

  /** The visit order holds the same keys, still on distinct curves when they were. */
  lemma VisitOrderKeeps(cs: Curves, keys: seq<KeyMove>, dt: real)
    ensures KeysOn(cs, keys) ==> KeysOn(cs, VisitOrder(keys, dt))
    ensures DistinctCurves(keys) ==> DistinctCurves(VisitOrder(keys, dt))
    ensures forall i :: 0 <= i < |keys| ==> VisitOrder(keys, dt)[i] in keys
  {
  }

  /** The curves a sequence of keys lives on. */
  function CurvesOf(keys: seq<KeyMove>): (r: set<CurveId>)
    ensures forall i :: 0 <= i < |keys| ==> keys[i].curve in r
  {
    if |keys| == 0 then {} else {keys[0].curve} + CurvesOf(keys[1..])
  }

  datatype MoveOutcome = Moved(newIndexes: seq<int>) | Aborted

  /** The loop inside the try block: moves keys in order and records each new
      index; the first error stops the loop, keeping the moves already done. */
  function MoveAll(cs: Curves, order: seq<KeyMove>, dt: real, dv: real, isUndo: bool)
    : (r: (Curves, MoveOutcome))
    requires ValidCurves(cs) && KeysOn(cs, order)
    ensures ValidCurves(r.0) && OnlyKeysChanged(cs, r.0)
    ensures r.1.Moved? ==> |r.1.newIndexes| == |order|
    ensures forall id :: id in cs && id !in CurvesOf(order) ==> r.0[id] == cs[id]
    decreases |order|
  {
    if |order| == 0 then (cs, Moved([]))
    else match MoveKey(cs, order[0], dt, dv, isUndo)
      case Err(_) => (cs, Aborted)
      case Ok((cs1, j)) =>
        assert KeysOn(cs1, order[1..]);
        var (cs2, out) := MoveAll(cs1, order[1..], dt, dv, isUndo);
        (cs2, if out.Aborted? then Aborted else Moved([j] + out.newIndexes))
  }

  /** MoveAll reads and writes only the curves of its keys. */
  lemma {:induction false} MoveAllFrame(cs: Curves, order: seq<KeyMove>, dt: real, dv: real, isUndo: bool, id: CurveId, x: CurveGui)
    requires ValidCurves(cs) && KeysOn(cs, order) && id in cs && Sorted(x.keys)
    requires forall i :: 0 <= i < |order| ==> order[i].curve != id
    ensures MoveAll(cs[id := x], order, dt, dv, isUndo)
            == (MoveAll(cs, order, dt, dv, isUndo).0[id := x], MoveAll(cs, order, dt, dv, isUndo).1)
    decreases |order|
  {
    if |order| > 0 {
      MoveKeyFrame(cs, order[0], dt, dv, isUndo, id, x);
      var r := MoveKey(cs, order[0], dt, dv, isUndo);
      if r.Ok? {
        MoveAllFrame(r.value.0, order[1..], dt, dv, isUndo, id, x);
      }
    }
  }

  /** A completed MoveAll moved its first key. */
  lemma MoveAllHeadMoved(cs: Curves, order: seq<KeyMove>, dt: real, dv: real, isUndo: bool)
    requires ValidCurves(cs) && KeysOn(cs, order) && |order| > 0
    requires MoveAll(cs, order, dt, dv, isUndo).1.Moved?
    ensures MoveKey(cs, order[0], dt, dv, isUndo).Ok?
  {
  }

  /** Once the first key is moved, MoveAll carries on with the rest. */
  lemma MoveAllHead(cs: Curves, order: seq<KeyMove>, dt: real, dv: real, isUndo: bool)
    requires ValidCurves(cs) && KeysOn(cs, order) && |order| > 0
    requires MoveKey(cs, order[0], dt, dv, isUndo).Ok?
    ensures var cs1 := MoveKey(cs, order[0], dt, dv, isUndo).value.0;
            && ValidCurves(cs1) && KeysOn(cs1, order[1..])
            && MoveAll(cs, order, dt, dv, isUndo).0 == MoveAll(cs1, order[1..], dt, dv, isUndo).0
            && (MoveAll(cs, order, dt, dv, isUndo).1.Moved? <==> MoveAll(cs1, order[1..], dt, dv, isUndo).1.Moved?)
    ensures var (cs1, j) := MoveKey(cs, order[0], dt, dv, isUndo).value;
            MoveAll(cs, order, dt, dv, isUndo).1.Moved? ==>
              MoveAll(cs, order, dt, dv, isUndo).1.newIndexes == [j] + MoveAll(cs1, order[1..], dt, dv, isUndo).1.newIndexes
  {
  }

  /** Each recorded index points, in the moved curves `after`, at the target of
      the key moved at that position. */
  ghost predicate IndexesPointAtTargets(before: Curves, after: Curves, order: seq<KeyMove>, idx: seq<int>, dt: real, dv: real) {
    && |idx| == |order|
    && forall p :: 0 <= p < |order| ==>
      && order[p].curve in before && order[p].curve in after
      && 0 <= idx[p] < |after[order[p].curve].keys|
      && after[order[p].curve].keys[idx[p]] == MoveTarget(before[order[p].curve], order[p].key, dt, dv)
  }

  /** With at most one key per curve, each recorded index points at that key's
      target in the moved curves. */
  lemma {:induction false} MovedIndexesPointAtTargets(cs: Curves, order: seq<KeyMove>, dt: real, dv: real)
    requires ValidCurves(cs) && KeysOn(cs, order) && DistinctCurves(order)
    requires MoveAll(cs, order, dt, dv, false).1.Moved?
    ensures IndexesPointAtTargets(cs, MoveAll(cs, order, dt, dv, false).0, order,
                                  MoveAll(cs, order, dt, dv, false).1.newIndexes, dt, dv)
    decreases |order|
  {
    if |order| > 0 {
      var m := order[0];
      var rest := order[1..];
      MoveAllHeadMoved(cs, order, dt, dv, false);
      MoveAllHead(cs, order, dt, dv, false);
      MoveKeyLandsAtTarget(cs, m, dt, dv);
      DistinctCurvesTail(order);
      var (cs1, j) := MoveKey(cs, m, dt, dv, false).value;
      var (cs2, out) := MoveAll(cs1, rest, dt, dv, false);
      MovedIndexesPointAtTargets(cs1, rest, dt, dv);
      TargetsCarryOver(cs, cs1, cs2, rest, out.newIndexes, dt, dv);
      assert cs2[m.curve] == cs1[m.curve];
      TargetsCons(cs, cs2, order, j, out.newIndexes, dt, dv);
    }
  }

  /** A key moved on redo lands at its target, at the index returned. */
  lemma MoveKeyLandsAtTarget(cs: Curves, m: KeyMove, dt: real, dv: real)
    requires ValidCurves(cs) && m.curve in cs
    requires MoveKey(cs, m, dt, dv, false).Ok?
    ensures var (cs1, j) := MoveKey(cs, m, dt, dv, false).value;
            && m.curve in cs1 && 0 <= j < |cs1[m.curve].keys|
            && cs1[m.curve].keys[j] == MoveTarget(cs[m.curve], m.key, dt, dv)
  {
    var (c', j) := MoveKeyOnCurve(cs[m.curve], m.key, dt, dv, false).value;
    assert MoveKey(cs, m, dt, dv, false).value == (cs[m.curve := c'], j as int);
  }

  lemma DistinctCurvesTail(order: seq<KeyMove>)
    requires DistinctCurves(order) && |order| > 0
    ensures DistinctCurves(order[1..])
    ensures order[0].curve !in CurvesOf(order[1..])
  {
    NotInCurvesOf(order[1..], order[0].curve);
  }

  /** A curve that no key lives on is not among CurvesOf. */
  lemma {:induction false} NotInCurvesOf(keys: seq<KeyMove>, id: CurveId)
    requires forall i :: 0 <= i < |keys| ==> keys[i].curve != id
    ensures id !in CurvesOf(keys)
  {
    if |keys| > 0 {
      NotInCurvesOf(keys[1..], id);
    }
  }

  /** Targets depend on a curve's range only, which moving keys leaves alone. */
  lemma TargetsCarryOver(cs: Curves, cs1: Curves, cs2: Curves, rest: seq<KeyMove>, idx: seq<int>, dt: real, dv: real)
    requires OnlyKeysChanged(cs, cs1)
    requires IndexesPointAtTargets(cs1, cs2, rest, idx, dt, dv)
    ensures IndexesPointAtTargets(cs, cs2, rest, idx, dt, dv)
  {
    forall p | 0 <= p < |rest| ensures MoveTarget(cs1[rest[p].curve], rest[p].key, dt, dv) == MoveTarget(cs[rest[p].curve], rest[p].key, dt, dv) {
      assert cs1[rest[p].curve] == cs[rest[p].curve].(keys := cs1[rest[p].curve].keys);
    }
  }

  lemma TargetsCons(cs: Curves, cs2: Curves, order: seq<KeyMove>, j: int, idx: seq<int>, dt: real, dv: real)
    requires |order| > 0 && order[0].curve in cs && order[0].curve in cs2
    requires 0 <= j < |cs2[order[0].curve].keys|
    requires cs2[order[0].curve].keys[j] == MoveTarget(cs[order[0].curve], order[0].key, dt, dv)
    requires IndexesPointAtTargets(cs, cs2, order[1..], idx, dt, dv)
    ensures IndexesPointAtTargets(cs, cs2, order, [j] + idx, dt, dv)
  {
    forall p | 1 <= p < |order|
      ensures 0 <= ([j] + idx)[p] < |cs2[order[p].curve].keys|
      ensures cs2[order[p].curve].keys[([j] + idx)[p]] == MoveTarget(cs[order[p].curve], order[p].key, dt, dv)
    {
      assert order[p] == order[1..][p - 1];
    }
  }

  lemma UpdateBack<K, V>(m: map<K, V>, k: K, v: V)
    requires k in m
    ensures m[k := v][k := m[k]] == m
  {
  }

  /** Undoing the move of one key gives its curve back exactly. */
  lemma UndoKeyOnCurve(c: CurveGui, key: KeyFrame, dt: real, dv: real)
    requires Sorted(c.keys) && key in c.keys
    requires MoveKeyOnCurve(c, key, dt, dv, false).Ok?
    ensures var moved := MoveKeyOnCurve(c, key, dt, dv, false).value.0;
      MoveKeyOnCurve(moved, key, dt, dv, true).Ok?
      && MoveKeyOnCurve(moved, key, dt, dv, true).value.0 == c
  {
    var i :| 0 <= i < |c.keys| && c.keys[i] == key;
    var target := MoveTarget(c, key, dt, dv);
    RedoKeyStep(c, key, dt, dv, i);
    var (ks, j) := SetKeyFrameValueAndTime(c.keys, target.time, target.value, i).value;
    MoveThenMoveBack(c.keys, i, target.time, target.value);
    UndoKeyStep(c, ks, key, dt, dv, i);
  }

  /** On redo, the key at position i is moved with index i. */
  lemma RedoKeyStep(c: CurveGui, key: KeyFrame, dt: real, dv: real, i: nat)
    requires Sorted(c.keys) && i < |c.keys| && c.keys[i] == key
    requires MoveKeyOnCurve(c, key, dt, dv, false).Ok?
    ensures var t := MoveTarget(c, key, dt, dv);
            && SetKeyFrameValueAndTime(c.keys, t.time, t.value, i).Ok?
            && MoveKeyOnCurve(c, key, dt, dv, false).value
               == (c.(keys := SetKeyFrameValueAndTime(c.keys, t.time, t.value, i).value.0),
                   SetKeyFrameValueAndTime(c.keys, t.time, t.value, i).value.1)
  {
    KeyFrameIndexOfSorted(c.keys, i);
  }

  /** On undo, the key found at the target time is handed to setKeyFrameValueAndTime. */
  lemma UndoKeyStep(c: CurveGui, ks: seq<KeyFrame>, key: KeyFrame, dt: real, dv: real, i: nat)
    requires Sorted(ks)
    requires SetKeyFrameValueAndTime(ks, key.time, key.value, KeyFrameIndex(ks, MoveTarget(c, key, dt, dv).time)) == Ok((c.keys, i))
    ensures MoveKeyOnCurve(c.(keys := ks), key, dt, dv, true) == Ok((c, i))
  {
    assert MoveTarget(c.(keys := ks), key, dt, dv) == MoveTarget(c, key, dt, dv);
  }

  /** Moving the first key leaves the other keys' curves as they were. */
  lemma RestStillPresent(cs: Curves, cs1: Curves, order: seq<KeyMove>)
    requires |order| > 0 && DistinctCurves(order) && KeysOn(cs, order)
    requires forall i :: 0 <= i < |order| ==> order[i].key in cs[order[i].curve].keys
    requires cs1.Keys == cs.Keys && forall id :: id in cs && id != order[0].curve ==> cs1[id] == cs[id]
    ensures KeysOn(cs1, order[1..]) && DistinctCurves(order[1..])
    ensures forall i :: 0 <= i < |order[1..]| ==> order[1..][i].key in cs1[order[1..][i].curve].keys
  {
    forall i | 0 <= i < |order[1..]| ensures order[1..][i].key in cs1[order[1..][i].curve].keys {
      assert order[1..][i] == order[i + 1];
    }
  }

  /** With at most one key per curve, undoing a completed move puts every
      curve back exactly as it was, whatever the value clamping did. */
  lemma {:induction false} MoveAllUndoRestores(cs: Curves, order: seq<KeyMove>, dt: real, dv: real)
    requires ValidCurves(cs) && KeysOn(cs, order) && DistinctCurves(order)
    requires forall i :: 0 <= i < |order| ==> order[i].key in cs[order[i].curve].keys
    requires MoveAll(cs, order, dt, dv, false).1.Moved?
    ensures MoveAll(MoveAll(cs, order, dt, dv, false).0, order, dt, dv, true).0 == cs
    decreases |order|
  {
    if |order| > 0 {
      var m := order[0];
      var rest := order[1..];
      var c := cs[m.curve];
      MoveAllHeadMoved(cs, order, dt, dv, false);
      MoveAllHead(cs, order, dt, dv, false);
      var cs1 := MoveKey(cs, m, dt, dv, false).value.0;
      var c1 := cs1[m.curve];
      var moved := MoveAll(cs1, rest, dt, dv, false).0;
      RestStillPresent(cs, cs1, order);
      MoveAllUndoRestores(cs1, rest, dt, dv);
      DistinctCurvesTail(order);
      assert moved[m.curve] == c1;
      UndoKeyOnCurve(c, m.key, dt, dv);
      MoveAllHead(moved, order, dt, dv, true);
      MoveAllFrame(moved, rest, dt, dv, true, m.curve, c);
      UpdateBack(cs, m.curve, c1);
    }
  }

  /** The try block of move: the keys in visit order. */
  function MoveInOrder(cs: Curves, keys: seq<KeyMove>, dt: real, dv: real, isUndo: bool): (r: (Curves, MoveOutcome))
    requires ValidCurves(cs) && KeysOn(cs, keys)
    ensures ValidCurves(r.0) && OnlyKeysChanged(cs, r.0)
    ensures r.1.Moved? ==> |r.1.newIndexes| == |keys|
  {
    VisitOrderKeeps(cs, keys, dt);
    MoveAll(cs, VisitOrder(keys, dt), dt, dv, isUndo)
  }

  /** The selection rebuilt after a move as the source writes it: the i-th
      selected key is looked up at the i-th recorded index, although the
      indexes were recorded in visit order. */
  function SelectionAsWritten(cs: Curves, keys: seq<KeyMove>, newIndexes: seq<int>): (r: Selection)
    requires KeysOn(cs, keys) && |newIndexes| == |keys|
    ensures forall i :: 0 <= i < |keys| && 0 <= newIndexes[i] < |cs[keys[i].curve].keys| ==>
      (keys[i].curve, cs[keys[i].curve].keys[newIndexes[i]]) in r
  {
    set i | 0 <= i < |keys| && KeyWithIndex(cs[keys[i].curve].keys, newIndexes[i]).Some?
      :: (keys[i].curve, KeyWithIndex(cs[keys[i].curve].keys, newIndexes[i]).value)
  }

  /** The selection rebuilt with each key looked up at the index its own move
      recorded. */
  function SelectionOfMoved(cs: Curves, keys: seq<KeyMove>, newIndexes: seq<int>, dt: real): (r: Selection)
    requires KeysOn(cs, keys) && |newIndexes| == |keys|
    ensures forall i :: 0 <= i < |keys| ==>
      var j := newIndexes[VisitPosition(|keys|, i, dt)];
      0 <= j < |cs[keys[i].curve].keys| ==> (keys[i].curve, cs[keys[i].curve].keys[j]) in r
  {
    set i | 0 <= i < |keys| && KeyWithIndex(cs[keys[i].curve].keys, newIndexes[VisitPosition(|keys|, i, dt)]).Some?
      :: (keys[i].curve, KeyWithIndex(cs[keys[i].curve].keys, newIndexes[VisitPosition(|keys|, i, dt)]).value)
  }

  /** The keys a move should leave selected: every selected key at its target. */
  function MovedKeys(cs: Curves, keys: seq<KeyMove>, dt: real, dv: real): Selection
    requires KeysOn(cs, keys)
  {
    set i | 0 <= i < |keys| :: (keys[i].curve, MoveTarget(cs[keys[i].curve], keys[i].key, dt, dv))
  }

  /** The command's move: on an aborted loop the curves keep the moves already
      made and the selection is left alone; otherwise the moved keys are
      selected (when there are any). */
  function Move(st: EditorState, keys: seq<KeyMove>, dt: real, dv: real, isUndo: bool): (r: EditorState)
    requires ValidCurves(st.curves) && KeysOn(st.curves, keys)
    ensures ValidCurves(r.curves) && OnlyKeysChanged(st.curves, r.curves)
    ensures r.curves == MoveInOrder(st.curves, keys, dt, dv, isUndo).0
    ensures r.evaluateOnChange == st.evaluateOnChange
    ensures MoveInOrder(st.curves, keys, dt, dv, isUndo).1.Aborted? || |keys| == 0
            ==> r.selection == st.selection
  {
    var (cs, out) := MoveInOrder(st.curves, keys, dt, dv, isUndo);
    match out
    case Aborted => st.(curves := cs)
    case Moved(newIndexes) =>
      st.(curves := cs,
          selection := if |keys| > 0 then SelectionOfMoved(cs, keys, newIndexes, dt) else st.selection)
  }

  /** With at most one key per curve, a completed move selects exactly the
      moved keys at their new times and values. */
  lemma MoveSelectsMovedKeys(st: EditorState, keys: seq<KeyMove>, dt: real, dv: real)
    requires ValidCurves(st.curves) && KeysOn(st.curves, keys) && DistinctCurves(keys) && |keys| > 0
    requires MoveInOrder(st.curves, keys, dt, dv, false).1.Moved?
    ensures Move(st, keys, dt, dv, false).selection == MovedKeys(st.curves, keys, dt, dv)
  {
    var r := MoveInOrder(st.curves, keys, dt, dv, false);
    MoveInOrderPointsAtTargets(st.curves, keys, dt, dv);
    SelectionIsMovedKeys(st.curves, r.0, keys, r.1.newIndexes, dt, dv);
  }

  lemma MoveInOrderPointsAtTargets(cs: Curves, keys: seq<KeyMove>, dt: real, dv: real)
    requires ValidCurves(cs) && KeysOn(cs, keys) && DistinctCurves(keys)
    requires MoveInOrder(cs, keys, dt, dv, false).1.Moved?
    ensures IndexesPointAtTargets(cs, MoveInOrder(cs, keys, dt, dv, false).0, VisitOrder(keys, dt),
                                  MoveInOrder(cs, keys, dt, dv, false).1.newIndexes, dt, dv)
  {
    VisitOrderKeeps(cs, keys, dt);
    MovedIndexesPointAtTargets(cs, VisitOrder(keys, dt), dt, dv);
  }

  lemma SelectionIsMovedKeys(before: Curves, after: Curves, keys: seq<KeyMove>, idx: seq<int>, dt: real, dv: real)
    requires KeysOn(before, keys) && KeysOn(after, keys) && |idx| == |keys|
    requires IndexesPointAtTargets(before, after, VisitOrder(keys, dt), idx, dt, dv)
    ensures SelectionOfMoved(after, keys, idx, dt) == MovedKeys(before, keys, dt, dv)
  {
    forall i | 0 <= i < |keys|
      ensures KeyWithIndex(after[keys[i].curve].keys, idx[VisitPosition(|keys|, i, dt)])
              == Some(MoveTarget(before[keys[i].curve], keys[i].key, dt, dv))
    {
      VisitPositionVisitsKey(keys, dt, i);
    }
  }

  /** move as the source writes it: like Move, but the selection is rebuilt
      with SelectionAsWritten. */
  function MoveAsWritten(st: EditorState, keys: seq<KeyMove>, dt: real, dv: real, isUndo: bool): (r: EditorState)
    requires ValidCurves(st.curves) && KeysOn(st.curves, keys)
    ensures r.curves == Move(st, keys, dt, dv, isUndo).curves
    ensures r.evaluateOnChange == st.evaluateOnChange
  {
    var (cs, out) := MoveInOrder(st.curves, keys, dt, dv, isUndo);
    match out
    case Aborted => st.(curves := cs)
    case Moved(newIndexes) =>
      st.(curves := cs,
          selection := if |keys| > 0 then SelectionAsWritten(cs, keys, newIndexes) else st.selection)
  }

  // ---------------------------------------------------------------- a two-curve counterexample

  /* The members below, down to SelectionAsWrittenLosesMovedKeys, work one
     concrete move through step by step: two curves, one selected key on each,
     both moved by dt = 1. They exist only to exhibit the selection the source
     rebuilds after the move. */

  function ExampleCurve1(): CurveGui { CurveGui(0, [KeyFrame(0.0, 0.0)], -10.0, 10.0, false) }
  function ExampleCurve2(): CurveGui { CurveGui(0, [KeyFrame(0.0, 0.0), KeyFrame(1.0, 0.0)], -10.0, 10.0, false) }
  function ExampleState(): EditorState { EditorState(map[1 := ExampleCurve1(), 2 := ExampleCurve2()], {}, map[]) }
  function ExampleKeys(): seq<KeyMove> { [KeyMove(1, KeyFrame(0.0, 0.0)), KeyMove(2, KeyFrame(1.0, 0.0))] }

  lemma ExampleCurve2Moves()
    ensures MoveKeyOnCurve(ExampleCurve2(), KeyFrame(1.0, 0.0), 1.0, 0.0, false)
            == Ok((ExampleCurve2().(keys := [KeyFrame(0.0, 0.0), KeyFrame(2.0, 0.0)]), 1))
  {
    var ks := ExampleCurve2().keys;
    var rest := [KeyFrame(0.0, 0.0)];
    assert MoveTarget(ExampleCurve2(), KeyFrame(1.0, 0.0), 1.0, 0.0) == KeyFrame(2.0, 0.0);
    assert KeyFrameIndex(ks, 1.0) == 1 by {
      KeyFrameIndexOfSorted(ks, 1);
    }
    assert RemoveAt(ks, 1) == rest;
    assert 2.0 !in Times(rest);
    assert InsertionPoint(rest, 2.0) == 1 by {
      InsertionPointUnique(rest, 2.0, 1);
    }
    assert Insert(rest, KeyFrame(2.0, 0.0)).1 == 1;
    assert rest[..1] + [KeyFrame(2.0, 0.0)] + rest[1..] == [KeyFrame(0.0, 0.0), KeyFrame(2.0, 0.0)];
    assert Insert(rest, KeyFrame(2.0, 0.0)).0 == [KeyFrame(0.0, 0.0), KeyFrame(2.0, 0.0)];
    assert SetKeyFrameValueAndTime(ks, 2.0, 0.0, 1) == Ok(([KeyFrame(0.0, 0.0), KeyFrame(2.0, 0.0)], 1));
  }

  lemma ExampleCurve1Moves()
    ensures MoveKeyOnCurve(ExampleCurve1(), KeyFrame(0.0, 0.0), 1.0, 0.0, false)
            == Ok((ExampleCurve1().(keys := [KeyFrame(1.0, 0.0)]), 0))
  {
    var ks := ExampleCurve1().keys;
    assert MoveTarget(ExampleCurve1(), KeyFrame(0.0, 0.0), 1.0, 0.0) == KeyFrame(1.0, 0.0);
    assert KeyFrameIndex(ks, 0.0) == 0;
    assert RemoveAt(ks, 0) == [];
    assert Times([]) == {};
    assert Insert([], KeyFrame(1.0, 0.0)) == ([KeyFrame(1.0, 0.0)], 0) by {
      assert InsertionPoint([], 1.0) == 0;
      assert [][..0] + [KeyFrame(1.0, 0.0)] + [][0..] == [KeyFrame(1.0, 0.0)];
    }
    assert SetKeyFrameValueAndTime(ks, 1.0, 0.0, 0) == Ok(([KeyFrame(1.0, 0.0)], 0));
  }

  lemma ExampleValid()
    ensures ValidCurves(ExampleState().curves) && KeysOn(ExampleState().curves, ExampleKeys())
    ensures KeysOn(ExampleState().curves, [ExampleKeys()[1], ExampleKeys()[0]])
  {
  }

  function ExampleMoved1(): CurveGui { ExampleCurve1().(keys := [KeyFrame(1.0, 0.0)]) }
  function ExampleMoved2(): CurveGui { ExampleCurve2().(keys := [KeyFrame(0.0, 0.0), KeyFrame(2.0, 0.0)]) }

  lemma ExampleSecondStep()
    ensures ValidCurves(map[1 := ExampleCurve1(), 2 := ExampleMoved2()])
    ensures MoveKey(map[1 := ExampleCurve1(), 2 := ExampleMoved2()], ExampleKeys()[0], 1.0, 0.0, false)
            == Ok((map[1 := ExampleMoved1(), 2 := ExampleMoved2()], 0))
  {
    var cs1 := map[1 := ExampleCurve1(), 2 := ExampleMoved2()];
    ExampleSecondValid();
    ExampleCurve1Moves();
    var m := ExampleKeys()[0];
    assert m == KeyMove(1, KeyFrame(0.0, 0.0)) && cs1[m.curve] == ExampleCurve1();
    assert MoveKey(cs1, m, 1.0, 0.0, false) == Ok((cs1[1 := ExampleMoved1()], 0));
    UpdateFirstOfTwo(ExampleCurve1(), ExampleMoved2(), ExampleMoved1());
  }

  lemma UpdateFirstOfTwo(a: CurveGui, b: CurveGui, c: CurveGui)
    ensures map[1 := a, 2 := b][1 := c] == map[1 := c, 2 := b]
  {
    var m: Curves := map[1 := a, 2 := b][1 := c];
    assert m.Keys == {1, 2} && m[1] == c && m[2] == b;
  }

  lemma ExampleSecondValid()
    ensures ValidCurves(map[1 := ExampleCurve1(), 2 := ExampleMoved2()])
  {
    var cs1 := map[1 := ExampleCurve1(), 2 := ExampleMoved2()];
    forall id | id in cs1 ensures Sorted(cs1[id].keys) {
      if id == 1 {
        assert cs1[id].keys == [KeyFrame(0.0, 0.0)];
      } else {
        assert cs1[id].keys == [KeyFrame(0.0, 0.0), KeyFrame(2.0, 0.0)];
      }
    }
  }

  /** One step of MoveAll when the first move succeeds and the rest completes. */
  lemma MoveAllStep(cs: Curves, order: seq<KeyMove>, dt: real, dv: real, isUndo: bool,
                    cs1: Curves, j: nat, cs2: Curves, rest: seq<int>)
    requires ValidCurves(cs) && KeysOn(cs, order) && |order| > 0
    requires MoveKey(cs, order[0], dt, dv, isUndo) == Ok((cs1, j))
    requires ValidCurves(cs1) && KeysOn(cs1, order[1..])
    requires MoveAll(cs1, order[1..], dt, dv, isUndo) == (cs2, Moved(rest))
    ensures MoveAll(cs, order, dt, dv, isUndo) == (cs2, Moved([j] + rest))
  {
  }

  /** MoveAll over one key whose move succeeds. */
  lemma MoveAllOne(cs: Curves, b: KeyMove, dt: real, dv: real, isUndo: bool, cs1: Curves, j: nat)
    requires ValidCurves(cs) && b.curve in cs
    requires MoveKey(cs, b, dt, dv, isUndo) == Ok((cs1, j))
    ensures MoveAll(cs, [b], dt, dv, isUndo) == (cs1, Moved([j]))
  {
    assert [b][1..] == [];
    assert MoveAll(cs1, [], dt, dv, isUndo) == (cs1, Moved([]));
    assert [j] + [] == [j];
  }

  /** MoveAll over two keys whose moves both succeed. */
  lemma MoveAllTwo(cs: Curves, a: KeyMove, b: KeyMove, dt: real, dv: real, isUndo: bool,
                   cs1: Curves, j1: nat, cs2: Curves, j2: nat)
    requires ValidCurves(cs) && a.curve in cs && b.curve in cs
    requires MoveKey(cs, a, dt, dv, isUndo) == Ok((cs1, j1))
    requires ValidCurves(cs1) && b.curve in cs1
    requires MoveKey(cs1, b, dt, dv, isUndo) == Ok((cs2, j2))
    ensures MoveAll(cs, [a, b], dt, dv, isUndo) == (cs2, Moved([j1, j2]))
  {
    MoveAllOne(cs1, b, dt, dv, isUndo, cs2, j2);
    var order := [a, b];
    assert order[1..] == [b];
    SeqPair(j1, j2);
  }

  lemma SeqPair<T>(x: T, y: T)
    ensures [x] + [y] == [x, y]
  {
  }

  lemma ExampleFirstStep()
    ensures ValidCurves(ExampleState().curves) && KeysOn(ExampleState().curves, ExampleKeys())
    ensures MoveKey(ExampleState().curves, ExampleKeys()[1], 1.0, 0.0, false)
            == Ok((map[1 := ExampleCurve1(), 2 := ExampleMoved2()], 1))
  {
    ExampleValid();
    var cs := ExampleState().curves;
    ExampleCurve2Moves();
    assert cs[2 := ExampleMoved2()] == map[1 := ExampleCurve1(), 2 := ExampleMoved2()];
  }

  /** The key on curve 2 moves first and is recorded at index 1; then the key
      on curve 1, recorded at index 0. */
  lemma ExampleMoveAll()
    ensures ValidCurves(ExampleState().curves) && KeysOn(ExampleState().curves, [ExampleKeys()[1], ExampleKeys()[0]])
    ensures MoveAll(ExampleState().curves, [ExampleKeys()[1], ExampleKeys()[0]], 1.0, 0.0, false)
            == (map[1 := ExampleMoved1(), 2 := ExampleMoved2()], Moved([1, 0]))
  {
    ExampleValid();
    ExampleFirstStep();
    ExampleSecondStep();
    MoveAllTwo(ExampleState().curves, ExampleKeys()[1], ExampleKeys()[0], 1.0, 0.0, false,
               map[1 := ExampleCurve1(), 2 := ExampleMoved2()], 1,
               map[1 := ExampleMoved1(), 2 := ExampleMoved2()], 0);
  }

  lemma ExampleMove()
    ensures ValidCurves(ExampleState().curves) && KeysOn(ExampleState().curves, ExampleKeys())
    ensures MoveInOrder(ExampleState().curves, ExampleKeys(), 1.0, 0.0, false)
            == (map[1 := ExampleMoved1(), 2 := ExampleMoved2()], Moved([1, 0]))
  {
    ExampleValid();
    var keys := ExampleKeys();
    assert VisitOrder(keys, 1.0) == [keys[1], keys[0]];
    ExampleMoveAll();
  }

  function ExampleMoved(): Curves { map[1 := ExampleMoved1(), 2 := ExampleMoved2()] }

  lemma ExampleSelectionAsWritten()
    ensures KeysOn(ExampleMoved(), ExampleKeys())
    ensures SelectionAsWritten(ExampleMoved(), ExampleKeys(), [1, 0]) == {(2, KeyFrame(0.0, 0.0))}
  {
    var cs, keys, idx := ExampleMoved(), ExampleKeys(), [1, 0];
    assert KeyWithIndex(cs[keys[0].curve].keys, idx[0]) == None;
    assert KeyWithIndex(cs[keys[1].curve].keys, idx[1]) == Some(KeyFrame(0.0, 0.0));
    var sel := SelectionAsWritten(cs, keys, idx);
    assert (2, KeyFrame(0.0, 0.0)) in sel;
    forall x | x in sel ensures x == (2, KeyFrame(0.0, 0.0)) {
      var i :| 0 <= i < |keys| && KeyWithIndex(cs[keys[i].curve].keys, idx[i]).Some?
               && x == (keys[i].curve, KeyWithIndex(cs[keys[i].curve].keys, idx[i]).value);
      assert i == 1;
    }
  }

  lemma ExampleSelectionOfMoved()
    ensures KeysOn(ExampleMoved(), ExampleKeys())
    ensures SelectionOfMoved(ExampleMoved(), ExampleKeys(), [1, 0], 1.0)
            == {(1, KeyFrame(1.0, 0.0)), (2, KeyFrame(2.0, 0.0))}
  {
    assert VisitPosition(2, 0, 1.0) == 1 && VisitPosition(2, 1, 1.0) == 0;
    assert KeyWithIndex(ExampleMoved1().keys, 0) == Some(KeyFrame(1.0, 0.0));
    assert KeyWithIndex(ExampleMoved2().keys, 1) == Some(KeyFrame(2.0, 0.0));
  }

  /** The indexes are recorded back to front, so the source looks the key on
      curve 1 up at the index of the key on curve 2 and the other way round:
      it selects a key that did not move and loses both moved keys, where Move
      selects exactly the moved ones. */
  lemma SelectionAsWrittenLosesMovedKeys()
    ensures ValidCurves(ExampleState().curves) && KeysOn(ExampleState().curves, ExampleKeys())
    ensures MoveAsWritten(ExampleState(), ExampleKeys(), 1.0, 0.0, false).selection == {(2, KeyFrame(0.0, 0.0))}
    ensures Move(ExampleState(), ExampleKeys(), 1.0, 0.0, false).selection
            == {(1, KeyFrame(1.0, 0.0)), (2, KeyFrame(2.0, 0.0))}
  {
    ExampleMove();
    assert map[1 := ExampleMoved1(), 2 := ExampleMoved2()] == ExampleMoved();
    ExampleSelectionAsWritten();
    ExampleSelectionOfMoved();
  }

  // ---------------------------------------------------------------- the command

  datatype MoveKeysCommand = MoveKeysCommand(
    firstRedoCalled: bool, updateOnFirstRedo: bool, merge: bool,
    dt: real, dv: real, keys: seq<KeyMove>)

  /** A command with no keys is a placeholder that tells the stack to stop merging. */
  function NewMoveKeysCommand(keys: seq<KeyMove>, dt: real, dv: real, updateOnFirstRedo: bool): (c: MoveKeysCommand)
    ensures c.merge <==> |keys| > 0
    ensures !c.firstRedoCalled && c.updateOnFirstRedo == updateOnFirstRedo
    ensures c.keys == keys && c.dt == dt && c.dv == dv
  {
    MoveKeysCommand(false, updateOnFirstRedo, |keys| > 0, dt, dv, keys)
  }

  /** Every key's curve exists and every touched knob has a flag. */
  predicate ValidFor(cmd: MoveKeysCommand, st: EditorState) {
    && ValidCurves(st.curves) && KeysOn(st.curves, cmd.keys)
    && forall i :: 0 <= i < |cmd.keys| ==> st.curves[cmd.keys[i].curve].knob in st.evaluateOnChange
  }

  function TouchedKnobs(cs: Curves, keys: seq<KeyMove>): set<KnobId>
    requires KeysOn(cs, keys)
  {
    set i | 0 <= i < |keys| :: cs[keys[i].curve].knob
  }

  /** setEvaluateOnChange(b) on every knob of `knobs` that has a flag. */
  function SetFlags(flags: map<KnobId, bool>, knobs: set<KnobId>, b: bool): (r: map<KnobId, bool>)
    ensures r.Keys == flags.Keys
    ensures forall k :: k in flags ==> r[k] == if k in knobs then b else flags[k]
  {
    map k | k in flags :: if k in knobs then b else flags[k]
  }

  /** Gives every knob of `knobs` back the flag remembered in `saved`. */
  function RestoreFlags(flags: map<KnobId, bool>, knobs: set<KnobId>, saved: map<KnobId, bool>): (r: map<KnobId, bool>)
    ensures r.Keys == flags.Keys
    ensures forall k :: k in flags ==> r[k] == if k in knobs && k in saved then saved[k] else flags[k]
  {
    map k | k in flags :: if k in knobs && k in saved then saved[k] else flags[k]
  }

  /** Restoring the remembered flags undoes setting them. */
  lemma RestoreAfterSet(flags: map<KnobId, bool>, knobs: set<KnobId>, b: bool)
    ensures RestoreFlags(SetFlags(flags, knobs, b), knobs, flags) == flags
  {
  }

  /** redo: on the first redo (unless asked to update on it) every touched knob
      stops evaluating on change during the move and gets its previous setting
      back afterwards. Returns the command, the state, and the flags in force
      during the move. */
  function Redo(cmd: MoveKeysCommand, st: EditorState): (r: (MoveKeysCommand, EditorState, map<KnobId, bool>))
    requires ValidFor(cmd, st)
    ensures r.0 == cmd.(firstRedoCalled := true)
    ensures r.1.evaluateOnChange == st.evaluateOnChange
    ensures ValidCurves(r.1.curves) && OnlyKeysChanged(st.curves, r.1.curves)
    ensures r.1.curves == MoveInOrder(st.curves, cmd.keys, cmd.dt, cmd.dv, false).0
    ensures !cmd.firstRedoCalled && !cmd.updateOnFirstRedo ==>
      && r.2.Keys == st.evaluateOnChange.Keys
      && (forall i :: 0 <= i < |cmd.keys| ==> r.2[st.curves[cmd.keys[i].curve].knob] == false)
      && (forall k :: k in st.evaluateOnChange && k !in TouchedKnobs(st.curves, cmd.keys) ==>
            r.2[k] == st.evaluateOnChange[k])
    ensures cmd.firstRedoCalled || cmd.updateOnFirstRedo ==> r.2 == st.evaluateOnChange
  {
    var suppress := !cmd.firstRedoCalled && !cmd.updateOnFirstRedo;
    var touched := TouchedKnobs(st.curves, cmd.keys);
    var saved := st.evaluateOnChange;
    var during := if suppress then SetFlags(saved, touched, false) else saved;
    var moved := Move(st.(evaluateOnChange := during), cmd.keys, cmd.dt, cmd.dv, false);
    assert moved.curves == MoveInOrder(st.curves, cmd.keys, cmd.dt, cmd.dv, false).0;
    var after := if suppress then RestoreFlags(moved.evaluateOnChange, touched, saved) else moved.evaluateOnChange;
    assert forall i :: 0 <= i < |cmd.keys| ==> st.curves[cmd.keys[i].curve].knob in touched;
    RestoreAfterSet(saved, touched, false);
    (cmd.(firstRedoCalled := true), moved.(evaluateOnChange := after), during)
  }

  function Undo(cmd: MoveKeysCommand, st: EditorState): (r: EditorState)
    requires ValidFor(cmd, st)
    ensures r.evaluateOnChange == st.evaluateOnChange
    ensures ValidCurves(r.curves) && OnlyKeysChanged(st.curves, r.curves)
    ensures r.curves == MoveInOrder(st.curves, cmd.keys, cmd.dt, cmd.dv, true).0
  {
    Move(st, cmd.keys, cmd.dt, cmd.dv, true)
  }

  /** With at most one selected key per curve, undo after a completed redo
      gives back the curves exactly. */
  lemma RedoThenUndoRestores(cmd: MoveKeysCommand, st: EditorState)
    requires ValidFor(cmd, st) && DistinctCurves(cmd.keys)
    requires forall i :: 0 <= i < |cmd.keys| ==> cmd.keys[i].key in st.curves[cmd.keys[i].curve].keys
    requires MoveInOrder(st.curves, cmd.keys, cmd.dt, cmd.dv, false).1.Moved?
    ensures ValidFor(Redo(cmd, st).0, Redo(cmd, st).1)
    ensures Undo(Redo(cmd, st).0, Redo(cmd, st).1).curves == st.curves
  {
    var order := VisitOrder(cmd.keys, cmd.dt);
    VisitOrderKeeps(st.curves, cmd.keys, cmd.dt);
    VisitOrderKeysPresent(st.curves, cmd.keys, cmd.dt);
    RedoStaysValid(cmd, st);
    var moved := Redo(cmd, st).1;
    assert moved.curves == MoveAll(st.curves, order, cmd.dt, cmd.dv, false).0;
    assert Undo(Redo(cmd, st).0, moved).curves == MoveAll(moved.curves, order, cmd.dt, cmd.dv, true).0;
    MoveAllUndoRestores(st.curves, order, cmd.dt, cmd.dv);
  }

  /** After redo the command still applies to the moved curves. */
  lemma RedoStaysValid(cmd: MoveKeysCommand, st: EditorState)
    requires ValidFor(cmd, st)
    ensures ValidFor(Redo(cmd, st).0, Redo(cmd, st).1)
  {
    var r := Redo(cmd, st);
    forall i | 0 <= i < |cmd.keys|
      ensures cmd.keys[i].curve in r.1.curves && r.1.curves[cmd.keys[i].curve].knob in r.1.evaluateOnChange
    {
      assert st.curves[cmd.keys[i].curve].knob in st.evaluateOnChange;
    }
  }

  /** Every key visited is one of the selected keys, so it is on its curve. */
  lemma VisitOrderKeysPresent(cs: Curves, keys: seq<KeyMove>, dt: real)
    requires KeysOn(cs, keys)
    requires forall i :: 0 <= i < |keys| ==> keys[i].key in cs[keys[i].curve].keys
    ensures forall i :: 0 <= i < |keys| ==> VisitOrder(keys, dt)[i].curve in cs
                                              && VisitOrder(keys, dt)[i].key in cs[VisitOrder(keys, dt)[i].curve].keys
  {
    VisitOrderKeeps(cs, keys, dt);
    var order := VisitOrder(keys, dt);
    forall i | 0 <= i < |order| ensures order[i].key in cs[order[i].curve].keys {
      var j :| 0 <= j < |keys| && keys[j] == order[i];
    }
  }

  /** A command the undo stack may try to merge into a move command. */
  datatype UndoCommand = MoveKeysCmd(cmd: MoveKeysCommand) | OtherCommand

  /** mergeWith: returns whether `incoming` was absorbed, and the updated command. */
  function MergeWith(self: MoveKeysCommand, incoming: UndoCommand): (r: (bool, MoveKeysCommand))
    ensures incoming.OtherCommand? ==> r == (false, self)
    ensures incoming.MoveKeysCmd? && !self.merge ==> r == (!incoming.cmd.merge, self)
    ensures incoming.MoveKeysCmd? && self.merge ==>
      && r.0
      && r.1 == self.(dt := self.dt + incoming.cmd.dt, dv := self.dv + incoming.cmd.dv, merge := incoming.cmd.merge)
  {
    match incoming
    case OtherCommand => (false, self)
    case MoveKeysCmd(cmd) =>
      if !self.merge && !cmd.merge then (true, self)
      else if !self.merge && cmd.merge then (false, self)
      else
        var s := if !cmd.merge then self.(merge := false) else self;
        (true, s.(dt := s.dt + cmd.dt, dv := s.dv + cmd.dv))
  }

  /** Merges a run of move commands in order, as the undo stack offers them;
      returns the command and how many were absorbed before the first refusal. */
  function MergeRun(self: MoveKeysCommand, run: seq<MoveKeysCommand>): (r: (MoveKeysCommand, nat))
    ensures r.1 <= |run|
    ensures r.0.keys == self.keys && r.0.firstRedoCalled == self.firstRedoCalled
    decreases |run|
  {
    if |run| == 0 then (self, 0)
    else
      var (absorbed, s) := MergeWith(self, MoveKeysCmd(run[0]));
      if !absorbed then (self, 0)
      else var (s', n) := MergeRun(s, run[1..]); (s', n + 1)
  }

  function SumDt(run: seq<MoveKeysCommand>): real {
    if |run| == 0 then 0.0 else run[0].dt + SumDt(run[1..])
  }

  function SumDv(run: seq<MoveKeysCommand>): real {
    if |run| == 0 then 0.0 else run[0].dv + SumDv(run[1..])
  }

  /** A run of real moves is absorbed completely into a merging command, whose
      offsets become the totals of the run. */
  lemma {:induction false} MergeRunAccumulates(self: MoveKeysCommand, run: seq<MoveKeysCommand>)
    requires self.merge && forall c :: c in run ==> c.merge
    ensures MergeRun(self, run) == (self.(dt := self.dt + SumDt(run), dv := self.dv + SumDv(run)), |run|)
    decreases |run|
  {
    if |run| > 0 {
      assert run[0] in run;
      assert forall c :: c in run[1..] ==> c in run;
      MergeRunAccumulates(self.(dt := self.dt + run[0].dt, dv := self.dv + run[0].dv), run[1..]);
    }
  }

  /** Once a placeholder has been merged in, the command never grows again:
      later placeholders are absorbed without effect and real moves are refused. */
  lemma {:induction false} MergingStopsAfterPlaceholder(self: MoveKeysCommand, placeholder: MoveKeysCommand, run: seq<MoveKeysCommand>)
    requires self.merge && !placeholder.merge
    ensures !MergeWith(self, MoveKeysCmd(placeholder)).1.merge
    ensures MergeRun(MergeWith(self, MoveKeysCmd(placeholder)).1, run).0 == MergeWith(self, MoveKeysCmd(placeholder)).1
    decreases |run|
  {
    if |run| > 0 && !run[0].merge {
      MergingStopsAfterPlaceholder(self, placeholder, run[1..]);
    }
  }

  // ---------------------------------------------------------------- add / remove keys

  /** The value a key is given when (re)created: a parametric knob takes the
      recorded value, another knob keys its own current value at that time
      (`current`, which this model does not compute). */
  function AddedValue(c: CurveGui, k: KeyFrame, current: real): (v: real)
    ensures c.parametric ==> v == k.value
    ensures !c.parametric ==> v == current
  {
    if c.parametric then k.value else current
  }

  /** One step of the adding loop: sets the key on the curve, with the value
      AddedValue chooses. */
  function AddKey(c: CurveGui, k: KeyFrame, current: real): (r: CurveGui)
    requires Sorted(c.keys)
    ensures Sorted(r.keys) && r == c.(keys := r.keys)
    ensures Times(r.keys) == Times(c.keys) + {k.time}
  {
    c.(keys := SetKeyframe(c.keys, k.time, AddedValue(c, k, current)))
  }

  function TimesOf(keys: seq<KeyFrame>): set<real> {
    set k | k in keys :: k.time
  }

  lemma TimesOfCons(keys: seq<KeyFrame>)
    requires |keys| > 0
    ensures TimesOf(keys) == {keys[0].time} + TimesOf(keys[1..])
  {
    assert keys == [keys[0]] + keys[1..];
  }

  /** addOrRemoveKeyframe(true) over one curve. */
  function AddKeys(c: CurveGui, keys: seq<KeyFrame>, knobValue: real -> real): (r: CurveGui)
    requires Sorted(c.keys)
    ensures Sorted(r.keys) && r == c.(keys := r.keys)
    ensures Times(r.keys) == Times(c.keys) + TimesOf(keys)
    decreases |keys|
  {
    if |keys| == 0 then c
    else
      TimesOfCons(keys);
      AddKeys(c.(keys := SetKeyframe(c.keys, keys[0].time, AddedValue(c, keys[0], knobValue(keys[0].time)))), keys[1..], knobValue)
  }

  /** addOrRemoveKeyframe(false) over one curve. */
  function RemoveKeys(c: CurveGui, keys: seq<KeyFrame>): (r: CurveGui)
    requires Sorted(c.keys)
    ensures Sorted(r.keys) && r == c.(keys := r.keys)
    ensures Times(r.keys) == Times(c.keys) - TimesOf(keys)
    ensures forall k :: k in r.keys <==> k in c.keys && k.time !in TimesOf(keys)
    decreases |keys|
  {
    if |keys| == 0 then c
    else
      TimesOfCons(keys);
      RemoveKeys(c.(keys := DeleteKeyframe(c.keys, keys[0].time)), keys[1..])
  }

  /** Adding keys leaves every key at another time in place. */
  lemma {:induction false} AddKeysKeepsOthers(c: CurveGui, keys: seq<KeyFrame>, knobValue: real -> real)
    requires Sorted(c.keys)
    ensures forall k :: k in c.keys && k.time !in TimesOf(keys) ==> k in AddKeys(c, keys, knobValue).keys
    decreases |keys|
  {
    if |keys| > 0 {
      var c1 := c.(keys := SetKeyframe(c.keys, keys[0].time, AddedValue(c, keys[0], knobValue(keys[0].time))));
      AddKeysKeepsOthers(c1, keys[1..], knobValue);
      TimesOfCons(keys);
    }
  }

  /** No later key of the list shares the time of keys[i]: its value is the one left on the curve. */
  predicate LastOfTime(keys: seq<KeyFrame>, i: int)
    requires 0 <= i < |keys|
  {
    forall j :: i < j < |keys| ==> keys[j].time != keys[i].time
  }

  /** The first key of a list, when no later key shares its time, has a time
      the rest of the list does not hold. */
  lemma FirstTimeNotInRest(keys: seq<KeyFrame>)
    requires |keys| > 0 && LastOfTime(keys, 0)
    ensures keys[0].time !in TimesOf(keys[1..])
  {
    forall x | x in keys[1..] ensures x.time != keys[0].time {
      var j :| 0 <= j < |keys| - 1 && keys[1..][j] == x;
      assert keys[j + 1] == x;
    }
  }

  /** Being the last key at its time carries over to the rest of the list. */
  lemma LastOfTimeInRest(keys: seq<KeyFrame>, i: int)
    requires 0 < i < |keys| && LastOfTime(keys, i)
    ensures keys[1..][i - 1] == keys[i] && LastOfTime(keys[1..], i - 1)
  {
    forall j | i - 1 < j < |keys| - 1 ensures keys[1..][j].time != keys[1..][i - 1].time {
      assert keys[1..][j] == keys[j + 1];
    }
  }

  /** Each key that is the last one at its time is on the curve after the
      adding loop, with the value AddedValue gives it. */
  lemma {:induction false} AddKeysValues(c: CurveGui, keys: seq<KeyFrame>, knobValue: real -> real)
    requires Sorted(c.keys)
    ensures forall i :: 0 <= i < |keys| && LastOfTime(keys, i) ==>
              KeyFrame(keys[i].time, AddedValue(c, keys[i], knobValue(keys[i].time))) in AddKeys(c, keys, knobValue).keys
    decreases |keys|
  {
    if |keys| > 0 {
      var k := keys[0];
      var c1 := c.(keys := SetKeyframe(c.keys, k.time, AddedValue(c, k, knobValue(k.time))));
      var r := AddKeys(c, keys, knobValue);
      assert r == AddKeys(c1, keys[1..], knobValue);
      AddKeysValues(c1, keys[1..], knobValue);
      AddKeysKeepsOthers(c1, keys[1..], knobValue);
      forall i | 0 <= i < |keys| && LastOfTime(keys, i)
        ensures KeyFrame(keys[i].time, AddedValue(c, keys[i], knobValue(keys[i].time))) in r.keys
      {
        if i == 0 {
          FirstTimeNotInRest(keys);
        } else {
          LastOfTimeInRest(keys, i);
        }
      }
    }
  }

  /** What the adding loop leaves on one curve: every key at another time, and
      for each last key at its time, the recorded key on a parametric curve or
      the knob's own value otherwise. */
  lemma AddKeysContents(c: CurveGui, keys: seq<KeyFrame>, knobValue: real -> real)
    requires Sorted(c.keys)
    ensures forall k :: k in c.keys && k.time !in TimesOf(keys) ==> k in AddKeys(c, keys, knobValue).keys
    ensures forall i :: 0 <= i < |keys| && LastOfTime(keys, i) ==>
              (if c.parametric then keys[i]
               else KeyFrame(keys[i].time, knobValue(keys[i].time))) in AddKeys(c, keys, knobValue).keys
  {
    AddKeysKeepsOthers(c, keys, knobValue);
    AddKeysValues(c, keys, knobValue);
    forall i | 0 <= i < |keys| && LastOfTime(keys, i)
      ensures (if c.parametric then keys[i]
               else KeyFrame(keys[i].time, knobValue(keys[i].time))) in AddKeys(c, keys, knobValue).keys
    {
      assert keys[i] == KeyFrame(keys[i].time, keys[i].value);
    }
  }

  /** Replacing one curve by a sorted curve that differs only in its keys keeps
      the curves valid and leaves every other curve as it was. */
  lemma ReplaceCurve(cs: Curves, id: CurveId, c: CurveGui)
    requires ValidCurves(cs) && id in cs
    requires Sorted(c.keys) && c == cs[id].(keys := c.keys)
    ensures ValidCurves(cs[id := c]) && OnlyKeysChanged(cs, cs[id := c])
    ensures forall other :: other in cs && other != id ==> cs[id := c][other] == cs[other]
    ensures cs[id := c][id] == c
  {
  }

  /** AddKeysCommand: redo adds the keys to its curve, undo removes them. */
  datatype AddKeysCommand = AddKeysCommand(curve: CurveId, keys: seq<KeyFrame>)

  /** Redo: the command's times are added to its curve, each with the recorded
      value on a parametric curve and the knob's own value otherwise; keys at
      other times and every other curve stay as they were. */
  function AddKeysRedo(cmd: AddKeysCommand, cs: Curves, knobValue: real -> real): (r: Curves)
    requires ValidCurves(cs) && cmd.curve in cs
    ensures ValidCurves(r) && OnlyKeysChanged(cs, r)
    ensures forall id :: id in cs && id != cmd.curve ==> r[id] == cs[id]
    ensures Times(r[cmd.curve].keys) == Times(cs[cmd.curve].keys) + TimesOf(cmd.keys)
    ensures forall k :: k in cs[cmd.curve].keys && k.time !in TimesOf(cmd.keys) ==> k in r[cmd.curve].keys
    ensures forall i :: 0 <= i < |cmd.keys| && LastOfTime(cmd.keys, i) ==>
              (if cs[cmd.curve].parametric then cmd.keys[i]
               else KeyFrame(cmd.keys[i].time, knobValue(cmd.keys[i].time))) in r[cmd.curve].keys
  {
    var c := cs[cmd.curve];
    AddKeysContents(c, cmd.keys, knobValue);
    ReplaceCurve(cs, cmd.curve, AddKeys(c, cmd.keys, knobValue));
    cs[cmd.curve := AddKeys(c, cmd.keys, knobValue)]
  }

  /** Undo: exactly the keys at the command's times leave its curve; every
      other curve stays as it was. */
  function AddKeysUndo(cmd: AddKeysCommand, cs: Curves): (r: Curves)
    requires ValidCurves(cs) && cmd.curve in cs
    ensures ValidCurves(r) && OnlyKeysChanged(cs, r)
    ensures forall id :: id in cs && id != cmd.curve ==> r[id] == cs[id]
    ensures Times(r[cmd.curve].keys) == Times(cs[cmd.curve].keys) - TimesOf(cmd.keys)
    ensures forall k :: k in r[cmd.curve].keys <==> k in cs[cmd.curve].keys && k.time !in TimesOf(cmd.keys)
  {
    ReplaceCurve(cs, cmd.curve, RemoveKeys(cs[cmd.curve], cmd.keys));
    cs[cmd.curve := RemoveKeys(cs[cmd.curve], cmd.keys)]
  }

  /** Keys added at times the curve did not hold are all removed again by undo:
      redo followed by undo gives back the original curves. */
  lemma {:induction false} AddKeysRedoThenUndo(cmd: AddKeysCommand, cs: Curves, knobValue: real -> real)
    requires ValidCurves(cs) && cmd.curve in cs
    requires forall k :: k in cmd.keys ==> k.time !in Times(cs[cmd.curve].keys)
    ensures AddKeysUndo(cmd, AddKeysRedo(cmd, cs, knobValue)) == cs
  {
    var c := cs[cmd.curve];
    var added := AddKeys(c, cmd.keys, knobValue);
    SameKeysAfterAddRemove(c, cmd.keys, knobValue);
    assert AddKeysRedo(cmd, cs, knobValue) == cs[cmd.curve := added];
    UpdateBack(cs, cmd.curve, added);
  }

  lemma {:induction false} SameKeysAfterAddRemove(c: CurveGui, keys: seq<KeyFrame>, knobValue: real -> real)
    requires Sorted(c.keys)
    requires forall k :: k in keys ==> k.time !in Times(c.keys)
    ensures RemoveKeys(AddKeys(c, keys, knobValue), keys) == c
  {
    var added := AddKeys(c, keys, knobValue);
    var back := RemoveKeys(added, keys);
    AddKeysKeepsOthers(c, keys, knobValue);
    forall k ensures k in back.keys <==> k in c.keys {
      if k in c.keys {
        assert k.time in Times(c.keys);
        assert k.time !in TimesOf(keys);
      }
    }
    SortedUnique(back.keys, c.keys);
  }

  /** RemoveKeysCommand: keys recorded with their curves; redo removes them,
      undo adds them back. */
  datatype RemoveKeysCommand = RemoveKeysCommand(keys: seq<(CurveId, KeyFrame)>)

  predicate PairsOn(cs: Curves, keys: seq<(CurveId, KeyFrame)>) {
    forall i :: 0 <= i < |keys| ==> keys[i].0 in cs
  }

  /** Times the recorded keys name on curve `id`. */
  function TimesOn(keys: seq<(CurveId, KeyFrame)>, id: CurveId): set<real> {
    set i | 0 <= i < |keys| && keys[i].0 == id :: keys[i].1.time
  }

  lemma TimesOnCons(keys: seq<(CurveId, KeyFrame)>, id: CurveId)
    requires |keys| > 0
    ensures TimesOn(keys, id) == (if keys[0].0 == id then {keys[0].1.time} else {}) + TimesOn(keys[1..], id)
  {
    var rest := keys[1..];
    forall t | t in TimesOn(rest, id) ensures t in TimesOn(keys, id) {
      var i :| 0 <= i < |rest| && rest[i].0 == id && rest[i].1.time == t;
      assert keys[i + 1] == rest[i];
    }
    forall t | t in TimesOn(keys, id)
      ensures t in (if keys[0].0 == id then {keys[0].1.time} else {}) + TimesOn(rest, id)
    {
      var i :| 0 <= i < |keys| && keys[i].0 == id && keys[i].1.time == t;
      if i > 0 {
        assert rest[i - 1] == keys[i];
      }
    }
  }

  /** The removal loop of RemoveKeysCommand: each recorded key's time is
      removed from its curve. */
  function RemovePairs(cs: Curves, keys: seq<(CurveId, KeyFrame)>): (r: Curves)
    requires ValidCurves(cs) && PairsOn(cs, keys)
    ensures ValidCurves(r) && OnlyKeysChanged(cs, r)
    decreases |keys|
  {
    if |keys| == 0 then cs
    else
      var (id0, k0) := keys[0];
      var cs1 := cs[id0 := cs[id0].(keys := DeleteKeyframe(cs[id0].keys, k0.time))];
      assert PairsOn(cs1, keys[1..]);
      RemovePairs(cs1, keys[1..])
  }

  /** After the removal loop a curve holds exactly its old keys whose times
      were not recorded on it. */
  lemma {:induction false} RemovePairsContents(cs: Curves, keys: seq<(CurveId, KeyFrame)>, id: CurveId)
    requires ValidCurves(cs) && PairsOn(cs, keys) && id in cs
    ensures Times(RemovePairs(cs, keys)[id].keys) == Times(cs[id].keys) - TimesOn(keys, id)
    ensures forall k :: k in RemovePairs(cs, keys)[id].keys <==> k in cs[id].keys && k.time !in TimesOn(keys, id)
    decreases |keys|
  {
    if |keys| > 0 {
      var (id0, k0) := keys[0];
      var cs1 := cs[id0 := cs[id0].(keys := DeleteKeyframe(cs[id0].keys, k0.time))];
      assert PairsOn(cs1, keys[1..]);
      RemovePairsContents(cs1, keys[1..], id);
      TimesOnCons(keys, id);
    }
  }

  /** The adding loop of RemoveKeysCommand: each recorded key is set again on
      its curve. */
  function AddPairs(cs: Curves, keys: seq<(CurveId, KeyFrame)>, knobValue: (CurveId, real) -> real): (r: Curves)
    requires ValidCurves(cs) && PairsOn(cs, keys)
    ensures ValidCurves(r) && OnlyKeysChanged(cs, r)
    decreases |keys|
  {
    if |keys| == 0 then cs
    else
      var (id0, k0) := keys[0];
      var cs1 := cs[id0 := AddKey(cs[id0], k0, knobValue(id0, k0.time))];
      assert PairsOn(cs1, keys[1..]);
      AddPairs(cs1, keys[1..], knobValue)
  }

  /** After the adding loop every curve holds its old times plus the recorded
      times on it. */
  lemma {:induction false} AddPairsTimes(cs: Curves, keys: seq<(CurveId, KeyFrame)>, knobValue: (CurveId, real) -> real, id: CurveId)
    requires ValidCurves(cs) && PairsOn(cs, keys) && id in cs
    ensures Times(AddPairs(cs, keys, knobValue)[id].keys) == Times(cs[id].keys) + TimesOn(keys, id)
    decreases |keys|
  {
    if |keys| > 0 {
      var (id0, k0) := keys[0];
      var cs1 := cs[id0 := AddKey(cs[id0], k0, knobValue(id0, k0.time))];
      assert PairsOn(cs1, keys[1..]);
      AddPairsTimes(cs1, keys[1..], knobValue, id);
      TimesOnCons(keys, id);
    }
  }

  /** No later recorded pair names the same curve and time as keys[i]: its key
      is the one the adding loop leaves there. */
  predicate LastOnCurve(keys: seq<(CurveId, KeyFrame)>, i: int)
    requires 0 <= i < |keys|
  {
    forall j :: i < j < |keys| && keys[j].0 == keys[i].0 ==> keys[j].1.time != keys[i].1.time
  }

  /** Every time recorded on a curve is recorded there by a last pair. */
  lemma {:induction false} LastPairAt(keys: seq<(CurveId, KeyFrame)>, id: CurveId, t: real) returns (i: nat)
    requires t in TimesOn(keys, id)
    ensures i < |keys| && keys[i].0 == id && keys[i].1.time == t && LastOnCurve(keys, i)
    decreases |keys|
  {
    TimesOnCons(keys, id);
    var rest := keys[1..];
    if t in TimesOn(rest, id) {
      var i' := LastPairAt(rest, id, t);
      i := i' + 1;
      forall j | i < j < |keys| && keys[j].0 == keys[i].0 ensures keys[j].1.time != keys[i].1.time {
        assert keys[j] == rest[j - 1];
      }
    } else {
      i := 0;
      forall j | 0 < j < |keys| && keys[j].0 == keys[0].0 ensures keys[j].1.time != keys[0].1.time {
        assert keys[j] == rest[j - 1];
      }
    }
  }

  /** The adding loop keeps every key at a time not recorded on its curve. */
  lemma {:induction false} AddPairsKeepsOthers(cs: Curves, keys: seq<(CurveId, KeyFrame)>, knobValue: (CurveId, real) -> real, id: CurveId)
    requires ValidCurves(cs) && PairsOn(cs, keys) && id in cs
    ensures forall k :: k in cs[id].keys && k.time !in TimesOn(keys, id) ==> k in AddPairs(cs, keys, knobValue)[id].keys
    decreases |keys|
  {
    if |keys| > 0 {
      var (id0, k0) := keys[0];
      var cs1 := cs[id0 := AddKey(cs[id0], k0, knobValue(id0, k0.time))];
      assert PairsOn(cs1, keys[1..]);
      AddPairsKeepsOthers(cs1, keys[1..], knobValue, id);
      TimesOnCons(keys, id);
    }
  }

  /** After the adding loop each curve holds, for every time recorded on it,
      the last recorded key on a parametric curve and the knob's own value at
      that time otherwise. */
  lemma AddPairsValues(cs: Curves, keys: seq<(CurveId, KeyFrame)>, knobValue: (CurveId, real) -> real, id: CurveId)
    requires ValidCurves(cs) && PairsOn(cs, keys) && id in cs
    ensures forall i :: 0 <= i < |keys| && keys[i].0 == id && LastOnCurve(keys, i) ==>
              (if cs[id].parametric then keys[i].1
               else KeyFrame(keys[i].1.time, knobValue(id, keys[i].1.time))) in AddPairs(cs, keys, knobValue)[id].keys
  {
    forall i | 0 <= i < |keys| && keys[i].0 == id && LastOnCurve(keys, i)
      ensures (if cs[id].parametric then keys[i].1
               else KeyFrame(keys[i].1.time, knobValue(id, keys[i].1.time))) in AddPairs(cs, keys, knobValue)[id].keys
    {
      AddPairsValueAt(cs, keys, knobValue, i);
    }
  }

  /** The same for one recorded pair, by induction over the loop. */
  lemma {:induction false} AddPairsValueAt(cs: Curves, keys: seq<(CurveId, KeyFrame)>, knobValue: (CurveId, real) -> real, i: nat)
    requires ValidCurves(cs) && PairsOn(cs, keys)
    requires i < |keys| && LastOnCurve(keys, i)
    ensures var (id, k) := keys[i];
            (if cs[id].parametric then k else KeyFrame(k.time, knobValue(id, k.time))) in AddPairs(cs, keys, knobValue)[id].keys
    decreases i
  {
    if i == 0 {
      AddPairsFirstValue(cs, keys, knobValue);
    } else {
      var (id0, k0) := keys[0];
      var cs1 := cs[id0 := AddKey(cs[id0], k0, knobValue(id0, k0.time))];
      assert PairsOn(cs1, keys[1..]);
      assert AddPairs(cs, keys, knobValue) == AddPairs(cs1, keys[1..], knobValue);
      LastOnCurveInRest(keys, i);
      AddPairsValueAt(cs1, keys[1..], knobValue, i - 1);
      assert cs1[keys[i].0].parametric == cs[keys[i].0].parametric;
    }
  }

  /** The first pair's key, when no later pair records its curve and time, is
      what the adding loop leaves at that time. */
  lemma AddPairsFirstValue(cs: Curves, keys: seq<(CurveId, KeyFrame)>, knobValue: (CurveId, real) -> real)
    requires ValidCurves(cs) && PairsOn(cs, keys)
    requires |keys| > 0 && LastOnCurve(keys, 0)
    ensures var (id, k) := keys[0];
            (if cs[id].parametric then k else KeyFrame(k.time, knobValue(id, k.time))) in AddPairs(cs, keys, knobValue)[id].keys
  {
    var (id, k) := keys[0];
    var cs1 := cs[id := AddKey(cs[id], k, knobValue(id, k.time))];
    assert PairsOn(cs1, keys[1..]);
    assert AddPairs(cs, keys, knobValue) == AddPairs(cs1, keys[1..], knobValue);
    FirstPairNotInRest(keys);
    AddPairsKeepsOthers(cs1, keys[1..], knobValue, id);
    assert k == KeyFrame(k.time, k.value);
  }

  /** The first pair, when it is last on its curve at its time, names a time
      the rest does not record on that curve. */
  lemma FirstPairNotInRest(keys: seq<(CurveId, KeyFrame)>)
    requires |keys| > 0 && LastOnCurve(keys, 0)
    ensures keys[0].1.time !in TimesOn(keys[1..], keys[0].0)
  {
    var rest := keys[1..];
    forall j | 0 <= j < |rest| && rest[j].0 == keys[0].0 ensures rest[j].1.time != keys[0].1.time {
      assert rest[j] == keys[j + 1];
    }
  }

  /** Being last on its curve at its time carries over to the rest of the list. */
  lemma LastOnCurveInRest(keys: seq<(CurveId, KeyFrame)>, i: int)
    requires 0 < i < |keys| && LastOnCurve(keys, i)
    ensures keys[1..][i - 1] == keys[i] && LastOnCurve(keys[1..], i - 1)
  {
    forall j | i - 1 < j < |keys| - 1 && keys[1..][j].0 == keys[1..][i - 1].0
      ensures keys[1..][j].1.time != keys[1..][i - 1].1.time
    {
      assert keys[1..][j] == keys[j + 1];
    }
  }

  function RemoveKeysRedo(cmd: RemoveKeysCommand, cs: Curves): (r: Curves)
    requires ValidCurves(cs) && PairsOn(cs, cmd.keys)
    ensures ValidCurves(r) && OnlyKeysChanged(cs, r)
    ensures forall id :: id in cs ==> Times(r[id].keys) == Times(cs[id].keys) - TimesOn(cmd.keys, id)
    ensures forall id, k :: id in cs ==>
      (k in r[id].keys <==> k in cs[id].keys && k.time !in TimesOn(cmd.keys, id))
  {
    forall id | id in cs
      ensures Times(RemovePairs(cs, cmd.keys)[id].keys) == Times(cs[id].keys) - TimesOn(cmd.keys, id)
      ensures forall k :: k in RemovePairs(cs, cmd.keys)[id].keys <==> k in cs[id].keys && k.time !in TimesOn(cmd.keys, id)
    {
      RemovePairsContents(cs, cmd.keys, id);
    }
    RemovePairs(cs, cmd.keys)
  }

  /** Undo: the recorded keys come back. Each curve gains exactly the times
      recorded on it and keeps its keys at other times; a parametric curve gets
      the recorded key itself, another curve the knob's own value. */
  function RemoveKeysUndo(cmd: RemoveKeysCommand, cs: Curves, knobValue: (CurveId, real) -> real): (r: Curves)
    requires ValidCurves(cs) && PairsOn(cs, cmd.keys)
    ensures ValidCurves(r) && OnlyKeysChanged(cs, r)
    ensures forall id :: id in cs ==> Times(r[id].keys) == Times(cs[id].keys) + TimesOn(cmd.keys, id)
    ensures forall id, k :: id in cs && k in cs[id].keys && k.time !in TimesOn(cmd.keys, id) ==> k in r[id].keys
    ensures forall i :: 0 <= i < |cmd.keys| && LastOnCurve(cmd.keys, i) ==>
              (if cs[cmd.keys[i].0].parametric then cmd.keys[i].1
               else KeyFrame(cmd.keys[i].1.time, knobValue(cmd.keys[i].0, cmd.keys[i].1.time)))
              in r[cmd.keys[i].0].keys
  {
    var r := AddPairs(cs, cmd.keys, knobValue);
    forall id | id in cs
      ensures Times(r[id].keys) == Times(cs[id].keys) + TimesOn(cmd.keys, id)
      ensures forall k :: k in cs[id].keys && k.time !in TimesOn(cmd.keys, id) ==> k in r[id].keys
      ensures forall i :: 0 <= i < |cmd.keys| && cmd.keys[i].0 == id && LastOnCurve(cmd.keys, i) ==>
                (if cs[id].parametric then cmd.keys[i].1
                 else KeyFrame(cmd.keys[i].1.time, knobValue(id, cmd.keys[i].1.time))) in r[id].keys
    {
      AddPairsTimes(cs, cmd.keys, knobValue, id);
      AddPairsKeepsOthers(cs, cmd.keys, knobValue, id);
      AddPairsValues(cs, cmd.keys, knobValue, id);
    }
    r
  }

  /** Removing recorded keys and undoing it gives every curve back its
      keyframe times. */
  lemma RemoveKeysRedoThenUndoTimes(cmd: RemoveKeysCommand, cs: Curves, knobValue: (CurveId, real) -> real)
    requires ValidCurves(cs) && PairsOn(cs, cmd.keys)
    requires forall i :: 0 <= i < |cmd.keys| ==> cmd.keys[i].1 in cs[cmd.keys[i].0].keys
    ensures forall id :: id in cs ==>
      Times(RemoveKeysUndo(cmd, RemoveKeysRedo(cmd, cs), knobValue)[id].keys) == Times(cs[id].keys)
  {
    forall id | id in cs ensures TimesOn(cmd.keys, id) <= Times(cs[id].keys) {
      forall t | t in TimesOn(cmd.keys, id) ensures t in Times(cs[id].keys) {
        var i :| 0 <= i < |cmd.keys| && cmd.keys[i].0 == id && cmd.keys[i].1.time == t;
        assert cmd.keys[i].1 in cs[id].keys;
      }
    }
  }

  /** On a parametric curve undo adds back the recorded keys themselves, so
      removing recorded keys and undoing it gives the curve back exactly. */
  lemma RemoveKeysRedoThenUndoParametric(cmd: RemoveKeysCommand, cs: Curves, knobValue: (CurveId, real) -> real, id: CurveId)
    requires ValidCurves(cs) && PairsOn(cs, cmd.keys)
    requires forall i :: 0 <= i < |cmd.keys| ==> cmd.keys[i].1 in cs[cmd.keys[i].0].keys
    requires id in cs && cs[id].parametric
    ensures RemoveKeysUndo(cmd, RemoveKeysRedo(cmd, cs), knobValue)[id] == cs[id]
  {
    var mid := RemoveKeysRedo(cmd, cs);
    var back := RemoveKeysUndo(cmd, mid, knobValue);
    var c, b := cs[id], back[id];
    assert mid[id].parametric;
    forall k | k in c.keys ensures k in b.keys {
      if k.time in TimesOn(cmd.keys, id) {
        var i := LastPairAt(cmd.keys, id, k.time);
        SameTimeSameKey(c.keys, cmd.keys[i].1, k);
      }
    }
    RemoveKeysRedoThenUndoTimes(cmd, cs, knobValue);
    forall k | k in b.keys ensures k in c.keys {
      assert k.time in Times(c.keys);
      var k' :| k' in c.keys && k'.time == k.time;
      SameTimeSameKey(b.keys, k, k');
    }
    SortedUnique(b.keys, c.keys);
  }
}
