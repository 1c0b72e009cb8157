/** The abstract keyframe sequence of an animation curve: keyframes ordered by
    strictly increasing time, addressed either by time or by position.

    Interpolation, tangents and the curve's evaluation are not part of this
    model. Moving a keyframe onto a time already held by another keyframe is
    rejected (like an index that does not exist), so a curve never holds two
    keyframes at one time. */
module Keyframes {
  import opened Common

  datatype KeyFrame = KeyFrame(time: real, value: real)

  datatype CurveError = IndexOutOfRange | TimeTaken

  predicate Sorted(ks: seq<KeyFrame>) {
    forall i, j :: 0 <= i < j < |ks| ==> ks[i].time < ks[j].time
  }

  function Times(ks: seq<KeyFrame>): set<real> {
    set k | k in ks :: k.time
  }

  /** keyFrameIndex: position of the keyframe at `time`, -1 when there is none. */
  function KeyFrameIndex(ks: seq<KeyFrame>, time: real): (r: int)
    ensures -1 <= r < |ks|
    ensures r == -1 <==> time !in Times(ks)
    ensures r >= 0 ==> ks[r].time == time
  {
    if |ks| == 0 then -1
    else if ks[0].time == time then 0
    else
      var r := KeyFrameIndex(ks[1..], time);
      assert Times(ks) == {ks[0].time} + Times(ks[1..]) by {
        assert ks == [ks[0]] + ks[1..];
      }
      if r == -1 then -1 else r + 1
  }

  /** In a sorted sequence the keyframe found for a time is the only one there. */
  lemma KeyFrameIndexOfSorted(ks: seq<KeyFrame>, i: int)
    requires Sorted(ks) && 0 <= i < |ks|
    ensures KeyFrameIndex(ks, ks[i].time) == i
  {
    var r := KeyFrameIndex(ks, ks[i].time);
    assert ks[i] in ks;
  }

  /** getKeyFrameWithIndex. */
  function KeyWithIndex(ks: seq<KeyFrame>, index: int): (r: Option<KeyFrame>)
    ensures r.Some? <==> 0 <= index < |ks|
    ensures r.Some? ==> r.value == ks[index] && r.value in ks
  {
    if 0 <= index < |ks| then Some(ks[index]) else None
  }

  /** Looking a time up by index finds a keyframe exactly when the curve has
      one at that time, and the keyframe found sits at that time. */
  lemma KeyWithIndexAtTime(ks: seq<KeyFrame>, time: real)
    ensures KeyWithIndex(ks, KeyFrameIndex(ks, time)).Some? <==> time in Times(ks)
    ensures KeyWithIndex(ks, KeyFrameIndex(ks, time)).Some? ==> KeyWithIndex(ks, KeyFrameIndex(ks, time)).value.time == time
  {
  }

  /** Number of keyframes strictly before `time`: where a keyframe at `time` belongs. */
  function InsertionPoint(ks: seq<KeyFrame>, time: real): (p: nat)
    requires Sorted(ks)
    ensures p <= |ks|
    ensures forall i :: 0 <= i < p ==> ks[i].time < time
    ensures forall i :: p <= i < |ks| ==> ks[i].time >= time
  {
    if |ks| == 0 || ks[0].time >= time then 0
    else 1 + InsertionPoint(ks[1..], time)
  }

  lemma TimesConcat(a: seq<KeyFrame>, b: seq<KeyFrame>)
    ensures Times(a + b) == Times(a) + Times(b)
  {
    assert forall x :: x in a + b <==> x in a || x in b;
  }

  lemma SortedSplice(ks: seq<KeyFrame>, p: nat, k: KeyFrame)
    requires Sorted(ks) && p <= |ks|
    requires forall i :: 0 <= i < p ==> ks[i].time < k.time
    requires forall i :: p <= i < |ks| ==> ks[i].time > k.time
    ensures Sorted(ks[..p] + [k] + ks[p..])
  {
    var s := ks[..p] + [k] + ks[p..];
    forall i, j | 0 <= i < j < |s| ensures s[i].time < s[j].time {
      if j < p {
        assert s[i] == ks[i] && s[j] == ks[j];
      } else if j == p {
        assert s[i] == ks[i];
      } else if i < p {
        assert s[i] == ks[i] && s[j] == ks[j - 1];
      } else if i == p {
        assert s[j] == ks[j - 1];
      } else {
        assert s[i] == ks[i - 1] && s[j] == ks[j - 1];
      }
    }
  }

  lemma SortedRemove(ks: seq<KeyFrame>, index: nat)
    requires Sorted(ks) && index < |ks|
    ensures Sorted(ks[..index] + ks[index + 1..])
  {
    var r := ks[..index] + ks[index + 1..];
    forall i, j | 0 <= i < j < |r| ensures r[i].time < r[j].time {
      var i' := if i < index then i else i + 1;
      var j' := if j < index then j else j + 1;
      assert r[i] == ks[i'] && r[j] == ks[j'];
    }
  }

  /** In a sorted sequence no other keyframe shares a keyframe's time. */
  lemma TimeNotElsewhere(ks: seq<KeyFrame>, index: nat)
    requires Sorted(ks) && index < |ks|
    ensures ks[index].time !in Times(ks[..index] + ks[index + 1..])
  {
    TimesConcat(ks[..index], ks[index + 1..]);
    forall x | x in ks[..index] ensures x.time != ks[index].time {
      var i :| 0 <= i < index && ks[..index][i] == x;
    }
    forall x | x in ks[index + 1..] ensures x.time != ks[index].time {
      var i :| 0 <= i < |ks| - index - 1 && ks[index + 1..][i] == x;
      assert x == ks[index + 1 + i];
    }
  }

  /** Inserts a keyframe at a free time, keeping the order. */
  function Insert(ks: seq<KeyFrame>, k: KeyFrame): (r: (seq<KeyFrame>, nat))
    requires Sorted(ks) && k.time !in Times(ks)
    ensures Sorted(r.0)
    ensures r.1 <= |ks| && r.0 == ks[..r.1] + [k] + ks[r.1..]
    ensures r.1 < |r.0| && r.0[r.1] == k
    ensures Times(r.0) == Times(ks) + {k.time}
  {
    var p := InsertionPoint(ks, k.time);
    assert forall i :: p <= i < |ks| ==> ks[i].time > k.time by {
      forall i | p <= i < |ks| ensures ks[i].time > k.time {
        assert ks[i] in ks;
      }
    }
    SortedSplice(ks, p, k);
    SpliceTimes(ks, p, k);
    (ks[..p] + [k] + ks[p..], p)
  }

  lemma SpliceTimes(ks: seq<KeyFrame>, p: nat, k: KeyFrame)
    requires p <= |ks|
    ensures Times(ks[..p] + [k] + ks[p..]) == Times(ks) + {k.time}
  {
    TimesConcat(ks[..p] + [k], ks[p..]);
    TimesConcat(ks[..p], [k]);
    TimesConcat(ks[..p], ks[p..]);
    assert ks[..p] + ks[p..] == ks;
    assert Times([k]) == {k.time};
  }

  /** Removes the keyframe at a position. */
  function RemoveAt(ks: seq<KeyFrame>, index: nat): (r: seq<KeyFrame>)
    requires Sorted(ks) && index < |ks|
    ensures Sorted(r)
    ensures r == ks[..index] + ks[index + 1..]
    ensures Times(r) == Times(ks) - {ks[index].time}
  {
    SortedRemove(ks, index);
    TimeNotElsewhere(ks, index);
    assert ks == ks[..index] + [ks[index]] + ks[index + 1..];
    TimesConcat(ks[..index] + [ks[index]], ks[index + 1..]);
    TimesConcat(ks[..index], [ks[index]]);
    TimesConcat(ks[..index], ks[index + 1..]);
    assert Times([ks[index]]) == {ks[index].time};
    ks[..index] + ks[index + 1..]
  }

  /** setKeyFrameValueAndTime: moves the keyframe at `index` to (time, value)
      and reports where it now sits. */
  function SetKeyFrameValueAndTime(ks: seq<KeyFrame>, time: real, value: real, index: int)
    : (r: Result<(seq<KeyFrame>, nat), CurveError>)
    requires Sorted(ks)
    ensures r == Err(IndexOutOfRange) <==> index < 0 || index >= |ks|
    ensures r == Err(TimeTaken) <==> 0 <= index < |ks| && time != ks[index].time && time in Times(ks)
    ensures r.Ok? ==> && Sorted(r.value.0) && |r.value.0| == |ks|
                      && r.value.1 < |ks| && r.value.0[r.value.1] == KeyFrame(time, value)
                      && Times(r.value.0) == Times(ks) - {ks[index].time} + {time}
    ensures r.Ok? ==> forall k {:trigger k in r.value.0} :: k in r.value.0 <==> k == KeyFrame(time, value) || (k in ks && k.time != ks[index].time)
  {
    if index < 0 || index >= |ks| then Err(IndexOutOfRange)
    else
      var rest := RemoveAt(ks, index);
      if time in Times(rest) then Err(TimeTaken)
      else
        ElementsAfterRemove(ks, index);
        InsertElements(rest, KeyFrame(time, value));
        Ok(Insert(rest, KeyFrame(time, value)))
  }

  /** The insertion point is the only position separating earlier from later times. */
  lemma {:induction false} InsertionPointUnique(a: seq<KeyFrame>, time: real, p: nat)
    requires Sorted(a) && p <= |a|
    requires forall i :: 0 <= i < p ==> a[i].time < time
    requires forall i :: p <= i < |a| ==> a[i].time >= time
    ensures InsertionPoint(a, time) == p
  {
    if p > 0 {
      assert a[0].time < time;
      assert forall i :: 0 <= i < p - 1 ==> a[1..][i] == a[i + 1];
      InsertionPointUnique(a[1..], time, p - 1);
    }
  }

  /** Removing a keyframe that was just inserted gives back the sequence. */
  lemma RemoveInserted(rest: seq<KeyFrame>, k: KeyFrame)
    requires Sorted(rest) && k.time !in Times(rest)
    ensures RemoveAt(Insert(rest, k).0, Insert(rest, k).1) == rest
  {
    var (moved, j) := Insert(rest, k);
    assert moved[..j] == rest[..j];
    assert moved[j + 1..] == rest[j..];
    assert rest[..j] + rest[j..] == rest;
  }

  /** Inserting a keyframe back where it was removed gives back the sequence. */
  lemma InsertRemoved(ks: seq<KeyFrame>, index: nat)
    requires Sorted(ks) && index < |ks|
    ensures Insert(RemoveAt(ks, index), ks[index]) == (ks, index)
  {
    var rest := RemoveAt(ks, index);
    var k := ks[index];
    assert InsertionPoint(rest, k.time) == index by {
      RemovedInsertionPoint(ks, index);
    }
    assert rest[..index] == ks[..index];
    assert rest[index..] == ks[index + 1..];
    assert ks == ks[..index] + [ks[index]] + ks[index + 1..];
  }

  lemma RemovedInsertionPoint(ks: seq<KeyFrame>, index: nat)
    requires Sorted(ks) && index < |ks|
    ensures InsertionPoint(RemoveAt(ks, index), ks[index].time) == index
  {
    var rest := RemoveAt(ks, index);
    assert forall i :: 0 <= i < index ==> rest[i] == ks[i];
    assert forall i :: index <= i < |rest| ==> rest[i] == ks[i + 1];
    InsertionPointUnique(rest, ks[index].time, index);
  }

  /** Undoing a move: the keyframe found at its new time, moved back to its
      original time and value, restores the curve exactly, at its old position. */
  lemma MoveThenMoveBack(ks: seq<KeyFrame>, index: nat, time: real, value: real)
    requires Sorted(ks) && index < |ks|
    requires SetKeyFrameValueAndTime(ks, time, value, index).Ok?
    ensures var (moved, j) := SetKeyFrameValueAndTime(ks, time, value, index).value;
            SetKeyFrameValueAndTime(moved, ks[index].time, ks[index].value, KeyFrameIndex(moved, time))
              == Ok((ks, index))
  {
    var k := ks[index];
    var rest := RemoveAt(ks, index);
    var moved := Insert(rest, KeyFrame(time, value)).0;
    var j := Insert(rest, KeyFrame(time, value)).1;
    assert SetKeyFrameValueAndTime(ks, time, value, index).value == (moved, j);
    KeyFrameIndexOfSorted(moved, j);
    RemoveInserted(rest, KeyFrame(time, value));
    assert RemoveAt(moved, j) == rest;
    InsertRemoved(ks, index);
  }

  /** setKeyframe / addControlPoint: adds a keyframe, replacing one already at that time. */
  function SetKeyframe(ks: seq<KeyFrame>, time: real, value: real): (r: seq<KeyFrame>)
    requires Sorted(ks)
    ensures Sorted(r)
    ensures Times(r) == Times(ks) + {time}
    ensures forall k :: k in r <==> k == KeyFrame(time, value) || (k in ks && k.time != time)
  {
    var i := KeyFrameIndex(ks, time);
    if i == -1 then
      InsertElements(ks, KeyFrame(time, value));
      assert forall k :: k in ks ==> k.time in Times(ks);
      Insert(ks, KeyFrame(time, value)).0
    else
      var rest := RemoveAt(ks, i);
      InsertElements(rest, KeyFrame(time, value));
      ElementsAfterRemove(ks, i);
      Insert(rest, KeyFrame(time, value)).0
  }

  /** removeKeyFrame / deleteControlPoint: removes the keyframe at a time, if any. */
  function DeleteKeyframe(ks: seq<KeyFrame>, time: real): (r: seq<KeyFrame>)
    requires Sorted(ks)
    ensures Sorted(r)
    ensures Times(r) == Times(ks) - {time}
    ensures forall k :: k in r <==> k in ks && k.time != time
    ensures time !in Times(ks) ==> r == ks
  {
    var i := KeyFrameIndex(ks, time);
    if i == -1 then
      assert forall k :: k in ks ==> k.time in Times(ks);
      ks
    else
      ElementsAfterRemove(ks, i);
      RemoveAt(ks, i)
  }

  /** Removing a position of a sorted sequence removes exactly the keyframes at that time. */
  lemma ElementsAfterRemove(ks: seq<KeyFrame>, index: nat)
    requires Sorted(ks) && index < |ks|
    ensures forall k :: k in RemoveAt(ks, index) <==> k in ks && k.time != ks[index].time
  {
    ElementsSplice(ks, index);
  }

  lemma ElementsSplice(ks: seq<KeyFrame>, index: nat)
    requires Sorted(ks) && index < |ks|
    ensures forall k :: k in ks[..index] + ks[index + 1..] <==> k in ks && k.time != ks[index].time
  {
    SpliceKeepsOthers(ks, index);
    SpliceDropsTime(ks, index);
  }

  lemma SpliceDropsTime(ks: seq<KeyFrame>, index: nat)
    requires Sorted(ks) && index < |ks|
    ensures forall k :: k in ks[..index] + ks[index + 1..] ==> k in ks && k.time != ks[index].time
  {
    var r := ks[..index] + ks[index + 1..];
    forall k | k in r ensures k in ks && k.time != ks[index].time {
      var j :| 0 <= j < |r| && r[j] == k;
      var j' := if j < index then j else j + 1;
      assert r[j] == ks[j'] && j' != index;
    }
  }

  lemma SpliceKeepsOthers(ks: seq<KeyFrame>, index: nat)
    requires index < |ks|
    ensures forall k :: k in ks && k.time != ks[index].time ==> k in ks[..index] + ks[index + 1..]
  {
    var r := ks[..index] + ks[index + 1..];
    forall k | k in ks && k.time != ks[index].time ensures k in r {
      var j :| 0 <= j < |ks| && ks[j] == k;
      var j' := if j < index then j else j - 1;
      assert r[j'] == k;
    }
  }

  /** Inserting adds exactly the inserted keyframe. */
  lemma InsertElements(ks: seq<KeyFrame>, k: KeyFrame)
    requires Sorted(ks) && k.time !in Times(ks)
    ensures forall x :: x in Insert(ks, k).0 <==> x in ks || x == k
  {
    var p := Insert(ks, k).1;
    assert ks == ks[..p] + ks[p..];
  }

  /** In a sorted sequence two keyframes at the same time are the same keyframe. */
  lemma SameTimeSameKey(ks: seq<KeyFrame>, a: KeyFrame, b: KeyFrame)
    requires Sorted(ks) && a in ks && b in ks && a.time == b.time
    ensures a == b
  {
    var i :| 0 <= i < |ks| && ks[i] == a;
    var j :| 0 <= j < |ks| && ks[j] == b;
    if i < j {
      assert ks[i].time < ks[j].time;
    } else if j < i {
      assert ks[j].time < ks[i].time;
    }
  }

  /** A sorted sequence is determined by its set of keyframes. */
  lemma {:induction false} SortedUnique(a: seq<KeyFrame>, b: seq<KeyFrame>)
    requires Sorted(a) && Sorted(b)
    requires forall k :: k in a <==> k in b
    ensures a == b
  {
    if |a| > 0 { assert a[0] in a; }
    if |b| > 0 { assert b[0] in b; }
    if |a| > 0 && |b| > 0 {
      var i :| 0 <= i < |b| && b[i] == a[0];
      var j :| 0 <= j < |a| && a[j] == b[0];
      assert a[0].time <= a[j].time;
      assert b[0].time <= b[i].time;
      assert i == 0;
      forall k ensures k in a[1..] <==> k in b[1..] {
        SortedTail(a, k);
        SortedTail(b, k);
      }
      SortedUnique(a[1..], b[1..]);
      assert a == [a[0]] + a[1..] && b == [b[0]] + b[1..];
    }
  }

  lemma SortedTail(a: seq<KeyFrame>, k: KeyFrame)
    requires Sorted(a) && |a| > 0
    ensures k in a[1..] <==> k in a && k != a[0]
  {
    if k in a && k != a[0] {
      var j :| 0 <= j < |a| && a[j] == k;
      assert a[1..][j - 1] == k;
    }
    if k in a[1..] {
      var j :| 0 <= j < |a| - 1 && a[1..][j] == k;
      assert a[j + 1] == k;
    }
  }
}
