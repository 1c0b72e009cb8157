/** The part of a project that is written to disk: ProjectSerialization::initialize
    keeps the activated nodes and the savable project knobs, and copies the
    timeline bounds. */
module ProjectSnapshot {
  import opened Common

  /** A node of the graph; a deactivated node is one the user deleted but
      that undo could still bring back. */
  datatype Node = Node(name: string, activated: bool)

  /** The knob classes the serializer tests for; every other class is `Valued`. */
  datatype KnobKind = GroupKnob | PageKnob | ButtonKnob | Valued

  datatype Knob = Knob(name: string, kind: KnobKind, persistent: bool)

  datatype Project = Project(
    nodes: seq<Node>, knobs: seq<Knob>, leftBound: int, rightBound: int, currentFrame: int, creationTime: int)

  datatype Serialization = Serialization(
    serializedNodes: seq<Node>, projectKnobs: seq<Knob>,
    timelineLeft: int, timelineRight: int, timelineCurrent: int, creationDate: int)

  predicate IsActivated(n: Node) {
    n.activated
  }

  /** A knob is saved when it is persistent and is not a Group, Page or Button. */
  predicate IsSaved(k: Knob) {
    k.persistent && k.kind != GroupKnob && k.kind != PageKnob && k.kind != ButtonKnob
  }

  /** The activated nodes of `nodes`, in order (the first loop of initialize). */
  method ActiveNodes(nodes: seq<Node>) returns (active: seq<Node>)
    ensures active == Filter(nodes, IsActivated)
  {
    active := [];
    for i := 0 to |nodes|
      invariant active == Filter(nodes[..i], IsActivated)
    {
      FilterStep(nodes, i, IsActivated);
      if nodes[i].activated {
        active := active + [nodes[i]];
      }
    }
    assert nodes[..|nodes|] == nodes;
  }

  /** The knob loop of initialize: appends the saved knobs to `knobs`. */
  method AppendSavedKnobs(knobs: seq<Knob>, all: seq<Knob>) returns (r: seq<Knob>)
    ensures r == knobs + Filter(all, IsSaved)
  {
    r := knobs;
    for i := 0 to |all|
      invariant r == knobs + Filter(all[..i], IsSaved)
    {
      FilterStep(all, i, IsSaved);
      if IsSaved(all[i]) {
        r := r + [all[i]];
      }
    }
    assert all[..|all|] == all;
  }

  /** initialize: the node list is cleared and refilled, the saved knobs are
      appended to whatever the serialization already held, and the timeline
      is copied. */
  method Initialize(s: Serialization, project: Project) returns (r: Serialization)
    ensures r.serializedNodes == Filter(project.nodes, IsActivated)
    ensures r.projectKnobs == s.projectKnobs + Filter(project.knobs, IsSaved)
    ensures r.timelineLeft == project.leftBound && r.timelineRight == project.rightBound
    ensures r.timelineCurrent == project.currentFrame && r.creationDate == project.creationTime
  {
    var active := ActiveNodes(project.nodes);
    var serialized: seq<Node> := [];
    for i := 0 to |active|
      invariant serialized == active[..i]
    {
      serialized := serialized + [active[i]];
    }
    assert active[..|active|] == active;
    var knobs := AppendSavedKnobs(s.projectKnobs, project.knobs);
    r := Serialization(serialized, knobs, project.leftBound, project.rightBound, project.currentFrame, project.creationTime);
  }

  /** What the filter promises, stated without it: exactly the activated
      nodes and exactly the saved knobs, each in their original order. */
  lemma SnapshotContents(project: Project)
    ensures forall n :: n in Filter(project.nodes, IsActivated) <==> n in project.nodes && n.activated
    ensures Subseq(Filter(project.nodes, IsActivated), project.nodes)
    ensures forall k :: k in Filter(project.knobs, IsSaved) <==> k in project.knobs && IsSaved(k)
    ensures Subseq(Filter(project.knobs, IsSaved), project.knobs)
  {
    FilterSubseq(project.nodes, IsActivated);
    FilterSubseq(project.knobs, IsSaved);
  }

  /** Number of elements of s satisfying p, counted position by position. */
  function CountWhere<T>(s: seq<T>, p: T -> bool): nat
    decreases |s|
  {
    if |s| == 0 then 0 else (if p(s[|s| - 1]) then 1 else 0) + CountWhere(s[..|s| - 1], p)
  }

  /** Because the list is cleared first, one node is written per activated node. */
  lemma {:induction false} SnapshotNodeCount(nodes: seq<Node>)
    ensures |Filter(nodes, IsActivated)| == CountWhere(nodes, IsActivated)
    decreases |nodes|
  {
    if |nodes| > 0 {
      var init := nodes[..|nodes| - 1];
      assert nodes == init + [nodes[|nodes| - 1]];
      FilterAppend(init, [nodes[|nodes| - 1]], IsActivated);
      SnapshotNodeCount(init);
    }
  }
}
