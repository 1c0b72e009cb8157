/** The pane layout saved with a project: one record per named tab widget,
    and the parent/child links between panes recovered from the split tags
    embedded in their names (ProjectGuiSerialization::initialize and
    ProjectGuiSerialization::createParenting). */
module PaneLayout {
  import opened Common

  // ---------------------------------------------------------------- strings

  /** t occurs in s at position i. */
  predicate OccursAt(s: string, t: string, i: int) {
    0 <= i && i + |t| <= |s| && s[i..i + |t|] == t
  }

  /** The last position below n at which t occurs, or -1. */
  function LastIndexBelow(s: string, t: string, n: nat): (r: int)
    ensures r == -1 || (0 <= r < n && OccursAt(s, t, r))
    ensures forall j :: r < j < n ==> !OccursAt(s, t, j)
    decreases n
  {
    if n == 0 then -1
    else if OccursAt(s, t, n - 1) then n - 1
    else LastIndexBelow(s, t, n - 1)
  }

  /** QString::lastIndexOf: the last position of t in s, or -1 when t does not occur. */
  function LastIndexOf(s: string, t: string): (r: int)
    ensures r == -1 <==> forall j :: !OccursAt(s, t, j)
    ensures r != -1 ==> OccursAt(s, t, r) && forall j :: r < j ==> !OccursAt(s, t, j)
  {
    LastIndexBelow(s, t, |s| + 1)
  }

  /** QString::remove(i, n): drops n characters from position i, or up to the end. */
  function RemoveChars(s: string, i: nat, n: nat): (r: string)
    requires i < |s|
    ensures n > 0 ==> |r| < |s|
    ensures i + n <= |s| ==> |r| == |s| - n
  {
    s[..i] + s[if i + n <= |s| then i + n else |s|..]
  }

  /** Removing an occurrence of t at i drops exactly that occurrence. */
  lemma RemoveOccurrence(s: string, t: string, i: nat)
    requires OccursAt(s, t, i) && |t| > 0
    ensures s == RemoveChars(s, i, |t|)[..i] + t + RemoveChars(s, i, |t|)[i..]
  {
    assert s == s[..i] + s[i..i + |t|] + s[i + |t|..];
  }

  // ---------------------------------------------------------------- records

  /** PaneLayout as saved: the pane's splits, floating position, tab names and
      its place in the split tree. */
  datatype Layout = Layout(
    splits: seq<bool>, floating: bool, posx: int, posy: int, tabs: seq<string>,
    parentName: string, splitsNames: seq<string>, parentingCreated: bool)

  type Layouts = map<string, Layout>

  /** The two tag strings a split pane appends to its parent's name. */
  datatype SplitTags = SplitTags(vertical: string, horizontal: string)

  /** The tags are fixed, non-empty strings. */
  predicate ValidTags(tags: SplitTags) {
    |tags.vertical| > 0 && |tags.horizontal| > 0
  }

  /** A tab widget as seen when saving. */
  datatype Pane = Pane(name: string, userSplits: seq<bool>, floating: bool, x: int, y: int, tabNames: seq<string>)

  function NonEmpty(s: string): bool { |s| > 0 }

  /** The record for one pane: no position unless floating, unnamed tabs dropped. */
  function PaneRecord(p: Pane): (r: Layout)
    ensures !p.floating ==> r.posx == -1 && r.posy == -1
    ensures p.floating ==> r.posx == p.x && r.posy == p.y
    ensures forall i :: 0 <= i < |r.tabs| ==> r.tabs[i] != []
    ensures forall t :: t in p.tabNames && t != [] <==> t in r.tabs
    ensures !r.parentingCreated && r.splitsNames == []
  {
    Layout(p.userSplits, p.floating,
           if p.floating then p.x else -1, if p.floating then p.y else -1,
           Filter(p.tabNames, NonEmpty), [], [], false)
  }

  /** The saved tab names keep their relative order. */
  lemma TabsKeepOrder(p: Pane)
    ensures Subseq(PaneRecord(p).tabs, p.tabNames)
  {
    FilterSubseq(p.tabNames, NonEmpty);
  }

  /** The names of the panes, in order. */
  function Names(panes: seq<Pane>): (r: seq<string>)
    ensures |r| == |panes| && forall i :: 0 <= i < |panes| ==> r[i] == panes[i].name
  {
    seq(|panes|, i requires 0 <= i < |panes| => panes[i].name)
  }

  /** The first pass of initialize: one record per named pane; a later pane
      with a name already recorded is ignored, as std::map::insert does. */
  function BuildLayouts(panes: seq<Pane>): (r: Layouts)
    ensures forall name :: name in r <==> name != [] && name in Names(panes)
    ensures forall name :: name in r ==> !r[name].parentingCreated && r[name].splitsNames == []
    decreases |panes|
  {
    if |panes| == 0 then map[]
    else
      var n := |panes| - 1;
      var rest := BuildLayouts(panes[..n]);
      var p := panes[n];
      assert Names(panes) == Names(panes[..n]) + [p.name];
      if p.name == [] || p.name in rest then rest
      else rest[p.name := PaneRecord(p)]
  }

  /** Each saved record is the one of the first pane carrying that name. */
  lemma {:induction false} BuildLayoutsFirstWins(panes: seq<Pane>, i: nat)
    requires i < |panes| && panes[i].name != []
    requires panes[i].name !in Names(panes)[..i]
    ensures BuildLayouts(panes)[panes[i].name] == PaneRecord(panes[i])
    decreases |panes|
  {
    var n := |panes| - 1;
    var front := panes[..n];
    var rest := BuildLayouts(front);
    var p := panes[n];
    var name := panes[i].name;
    if i < n {
      assert Names(front)[..i] == Names(panes)[..i];
      BuildLayoutsFirstWins(front, i);
      assert Names(front)[i] == name;
      assert name in rest;
      assert BuildLayouts(panes)[name] == rest[name];
    } else {
      assert Names(panes)[..i] == Names(front);
      assert name !in rest;
    }
  }

  // ---------------------------------------------------------------- parenting

  /** The split direction of a pane from the last positions of the two tags:
      Some(true) for horizontal, Some(false) for vertical, None when the pane
      is not a split child. */
  function Direction(vIndex: int, hIndex: int): (r: Option<bool>)
    ensures r.None? <==> vIndex == -1 && hIndex == -1
    ensures hIndex != -1 && vIndex != -1 ==> r == Some(hIndex > vIndex)
    ensures hIndex != -1 && vIndex == -1 ==> r == Some(true)
    ensures hIndex == -1 && vIndex != -1 ==> r == Some(false)
  {
    if hIndex != -1 && vIndex != -1 then Some(hIndex > vIndex)
    else if hIndex != -1 && vIndex == -1 then Some(true)
    else if hIndex == -1 && vIndex != -1 then Some(false)
    else None
  }

  /** The parent name of a split pane: its name with the deciding tag removed.
      Both branches remove as many characters as the vertical tag has. */
  function ParentName(name: string, tags: SplitTags): (r: Option<string>)
    requires ValidTags(tags)
    ensures r.Some? ==> |r.value| < |name|
    ensures r.None? <==> (forall j :: !OccursAt(name, tags.vertical, j)) && (forall j :: !OccursAt(name, tags.horizontal, j))
  {
    var v := LastIndexOf(name, tags.vertical);
    var h := LastIndexOf(name, tags.horizontal);
    match Direction(v, h)
    case None => None
    case Some(horizontal) =>
      var index := if horizontal then h else v;
      assert OccursAt(name, if horizontal then tags.horizontal else tags.vertical, index);
      Some(RemoveChars(name, index, |tags.vertical|))
  }

  /** Vertical case, which includes both tags last occurring at the same
      position: the parent is the name with the vertical tag removed at its
      last occurrence. */
  lemma VerticalParent(name: string, tags: SplitTags)
    requires ValidTags(tags)
    requires LastIndexOf(name, tags.vertical) != -1
    requires LastIndexOf(name, tags.horizontal) <= LastIndexOf(name, tags.vertical)
    ensures var i := LastIndexOf(name, tags.vertical);
            ParentName(name, tags) == Some(RemoveChars(name, i, |tags.vertical|))
            && name == ParentName(name, tags).value[..i] + tags.vertical + ParentName(name, tags).value[i..]
  {
    RemoveOccurrence(name, tags.vertical, LastIndexOf(name, tags.vertical));
  }

  /** A tie: in "xab" with tags "a" and "ab" both tags last occur at 1, and
      the pane is taken as a vertical split of "xb". */
  lemma VerticalParentOnTie()
    ensures LastIndexOf("xab", "a") == 1 && LastIndexOf("xab", "ab") == 1
    ensures ParentName("xab", SplitTags("a", "ab")) == Some("xb")
  {
    var name := "xab";
    assert name[1..2] == "a" && name[1..3] == "ab" && name[2..3] == "b";
    assert OccursAt(name, "a", 1) && OccursAt(name, "ab", 1);
    assert !OccursAt(name, "a", 2);
    VerticalParent("xab", SplitTags("a", "ab"));
    assert RemoveChars("xab", 1, 1) == "xb";
  }

  /** Horizontal case: the parent is the name with as many characters as the
      vertical tag has removed at the last occurrence of the horizontal tag.
      With tags of equal length that is exactly the horizontal tag. */
  lemma HorizontalParent(name: string, tags: SplitTags)
    requires ValidTags(tags)
    requires LastIndexOf(name, tags.horizontal) != -1
    requires LastIndexOf(name, tags.horizontal) > LastIndexOf(name, tags.vertical)
    ensures var i := LastIndexOf(name, tags.horizontal);
            ParentName(name, tags) == Some(RemoveChars(name, i, |tags.vertical|))
    ensures |tags.vertical| == |tags.horizontal| ==>
            var i := LastIndexOf(name, tags.horizontal);
            name == ParentName(name, tags).value[..i] + tags.horizontal + ParentName(name, tags).value[i..]
  {
    if |tags.vertical| == |tags.horizontal| {
      RemoveOccurrence(name, tags.horizontal, LastIndexOf(name, tags.horizontal));
    }
  }

  /** With tags of different lengths the horizontal parent is not the name
      with the horizontal tag removed: a shorter vertical tag leaves the end of
      the horizontal tag in place, and a longer one also removes characters
      after it, unless the tag ends the name. */
  lemma HorizontalParentUnequal(name: string, tags: SplitTags)
    requires ValidTags(tags) && |tags.vertical| != |tags.horizontal|
    requires LastIndexOf(name, tags.horizontal) != -1
    requires LastIndexOf(name, tags.horizontal) > LastIndexOf(name, tags.vertical)
    ensures var i := LastIndexOf(name, tags.horizontal);
            |tags.vertical| < |tags.horizontal| ==>
              && ParentName(name, tags).value == name[..i] + tags.horizontal[|tags.vertical|..] + name[i + |tags.horizontal|..]
              && ParentName(name, tags).value != RemoveChars(name, i, |tags.horizontal|)
    ensures var i := LastIndexOf(name, tags.horizontal);
            |tags.vertical| > |tags.horizontal| ==>
              (ParentName(name, tags).value == RemoveChars(name, i, |tags.horizontal|) <==> i + |tags.horizontal| == |name|)
  {
    var i := LastIndexOf(name, tags.horizontal);
    var v, h := |tags.vertical|, |tags.horizontal|;
    HorizontalParent(name, tags);
    var p := ParentName(name, tags).value;
    assert |RemoveChars(name, i, h)| == |name| - h;
    if v < h {
      assert name[i..i + h] == tags.horizontal;
      assert name[i + v..] == tags.horizontal[v..] + name[i + h..] by {
        assert name[i..] == name[i..i + h] + name[i + h..];
      }
    } else if i + h == |name| {
      assert p == name[..i];
    } else if i + v > |name| {
      assert |p| == i;
    }
  }

  /** The parent a split pane names is missing from the layout (an assertion
      in the source). */
  datatype ParentingError = MissingParent(name: string)

  /** One link: the child is listed once among the parent's splits, and
      records its parent. */
  function Link(l: Layouts, child: string, parent: string): (r: Layouts)
    requires child in l && parent in l && child != parent
    ensures r.Keys == l.Keys
    ensures forall k :: k in l && k != child && k != parent ==> r[k] == l[k]
    ensures r[child] == l[child].(parentName := parent, parentingCreated := true)
    ensures r[parent] == l[parent].(splitsNames := AddUnique(l[parent].splitsNames, child))
  {
    var p := l[parent];
    var l1 := l[parent := p.(splitsNames := AddUnique(p.splitsNames, child))];
    l1[child := l1[child].(parentName := parent, parentingCreated := true)]
  }

  /** createParenting: links the pane to its parent, then the parent to its
      own parent, up to a pane that is not a split child. */
  function CreateParenting(l: Layouts, name: string, tags: SplitTags): (r: Result<Layouts, ParentingError>)
    requires ValidTags(tags) && name in l
    ensures ParentName(name, tags).None? ==> r == Ok(l)
    ensures r.Ok? ==> r.value.Keys == l.Keys
    ensures r.Ok? ==> forall k :: k in l && |k| > |name| ==> r.value[k] == l[k]
    decreases |name|
  {
    match ParentName(name, tags)
    case None => Ok(l)
    case Some(parent) =>
      if parent !in l then Err(MissingParent(parent))
      else CreateParenting(Link(l, name, parent), parent, tags)
  }

  /** After createParenting the pane records its parent, and the parent lists
      the pane. */
  lemma ParentingLinksChild(l: Layouts, name: string, tags: SplitTags)
    requires ValidTags(tags) && name in l
    requires ParentName(name, tags).Some?
    requires CreateParenting(l, name, tags).Ok?
    ensures var parent := ParentName(name, tags).value;
            var r := CreateParenting(l, name, tags).value;
            && r[name].parentName == parent && r[name].parentingCreated
            && parent in r && name in r[parent].splitsNames
  {
    var parent := ParentName(name, tags).value;
    var l1 := Link(l, name, parent);
    var r := CreateParenting(l1, parent, tags).value;
    assert r[name] == l1[name];
    SplitsNamesGrow(l1, parent, tags, parent);
  }

  /** createParenting only adds names to the split lists. */
  lemma {:induction false} SplitsNamesGrow(l: Layouts, name: string, tags: SplitTags, k: string)
    requires ValidTags(tags) && name in l && k in l
    requires CreateParenting(l, name, tags).Ok?
    ensures forall c :: c in l[k].splitsNames ==> c in CreateParenting(l, name, tags).value[k].splitsNames
    ensures l[k].parentingCreated ==> CreateParenting(l, name, tags).value[k].parentingCreated
    decreases |name|
  {
    match ParentName(name, tags)
    case None =>
    case Some(parent) =>
      SplitsNamesGrow(Link(l, name, parent), parent, tags, k);
  }

  /** No split list holds a name twice. */
  predicate SplitsUnique(l: Layouts) {
    forall k :: k in l ==> NoDup(l[k].splitsNames)
  }

  /** createParenting keeps every split list free of duplicates. */
  lemma {:induction false} ParentingKeepsSplitsUnique(l: Layouts, name: string, tags: SplitTags)
    requires ValidTags(tags) && name in l && SplitsUnique(l)
    requires CreateParenting(l, name, tags).Ok?
    ensures SplitsUnique(CreateParenting(l, name, tags).value)
    decreases |name|
  {
    match ParentName(name, tags)
    case None =>
    case Some(parent) =>
      ParentingKeepsSplitsUnique(Link(l, name, parent), parent, tags);
  }

  /** The second pass of initialize: createParenting on every pane not yet
      linked, in the order the map is visited. */
  function ParentingPass(l: Layouts, order: seq<string>, tags: SplitTags): (r: Result<Layouts, ParentingError>)
    requires ValidTags(tags) && forall i :: 0 <= i < |order| ==> order[i] in l
    ensures r.Ok? ==> r.value.Keys == l.Keys
    decreases |order|
  {
    if |order| == 0 then Ok(l)
    else if l[order[0]].parentingCreated then ParentingPass(l, order[1..], tags)
    else match CreateParenting(l, order[0], tags)
      case Err(e) => Err(e)
      case Ok(l1) => ParentingPass(l1, order[1..], tags)
  }

  /** A successful pass is one step on its first pane followed by the pass
      over the rest. */
  lemma ParentingPassHead(l: Layouts, order: seq<string>, tags: SplitTags)
    requires ValidTags(tags) && forall i :: 0 <= i < |order| ==> order[i] in l
    requires |order| > 0 && ParentingPass(l, order, tags).Ok?
    ensures !l[order[0]].parentingCreated ==> CreateParenting(l, order[0], tags).Ok?
    ensures var l1 := if l[order[0]].parentingCreated then l else CreateParenting(l, order[0], tags).value;
            && l1.Keys == l.Keys
            && ParentingPass(l, order, tags) == ParentingPass(l1, order[1..], tags)
  {
  }

  /** The second pass keeps the split lists free of duplicates and never
      unlinks a pane. */
  lemma {:induction false} ParentingPassKeeps(l: Layouts, order: seq<string>, tags: SplitTags)
    requires ValidTags(tags) && forall i :: 0 <= i < |order| ==> order[i] in l
    requires SplitsUnique(l)
    requires ParentingPass(l, order, tags).Ok?
    ensures SplitsUnique(ParentingPass(l, order, tags).value)
    ensures forall k :: k in l && l[k].parentingCreated ==> ParentingPass(l, order, tags).value[k].parentingCreated
    decreases |order|
  {
    if |order| > 0 {
      var n := order[0];
      var rest := order[1..];
      ParentingPassHead(l, order, tags);
      var l1 := if l[n].parentingCreated then l else CreateParenting(l, n, tags).value;
      ParentingStep(l, n, tags);
      ParentingPassKeeps(l1, rest, tags);
    }
  }

  /** Every visited pane that is a split child ends up linked. */
  lemma {:induction false} ParentingPassLinksAll(l: Layouts, order: seq<string>, tags: SplitTags)
    requires ValidTags(tags) && forall i :: 0 <= i < |order| ==> order[i] in l
    requires SplitsUnique(l)
    requires ParentingPass(l, order, tags).Ok?
    ensures forall i :: 0 <= i < |order| && ParentName(order[i], tags).Some? ==>
      ParentingPass(l, order, tags).value[order[i]].parentingCreated
    decreases |order|
  {
    if |order| > 0 {
      var n := order[0];
      var rest := order[1..];
      ParentingPassHead(l, order, tags);
      var l1 := if l[n].parentingCreated then l else CreateParenting(l, n, tags).value;
      ParentingStep(l, n, tags);
      ParentingPassKeeps(l1, rest, tags);
      ParentingPassLinksAll(l1, rest, tags);
      LinkedShift(ParentingPass(l1, rest, tags).value, order, tags);
    }
  }

  /** A pane linked at the head of the visit order, plus the links along the
      rest of it, are the links along the whole order. */
  lemma LinkedShift(r: Layouts, order: seq<string>, tags: SplitTags)
    requires ValidTags(tags) && |order| > 0 && forall i :: 0 <= i < |order| ==> order[i] in r
    requires ParentName(order[0], tags).Some? ==> r[order[0]].parentingCreated
    requires forall j :: 0 <= j < |order| - 1 && ParentName(order[1..][j], tags).Some? ==> r[order[1..][j]].parentingCreated
    ensures forall i :: 0 <= i < |order| && ParentName(order[i], tags).Some? ==> r[order[i]].parentingCreated
  {
    forall i | 0 < i < |order| && ParentName(order[i], tags).Some? ensures r[order[i]].parentingCreated {
      assert order[i] == order[1..][i - 1];
    }
  }

  /** One visit of the second pass: split lists stay unique, linked panes stay
      linked, and the visited pane is linked when it is a split child. */
  lemma ParentingStep(l: Layouts, n: string, tags: SplitTags)
    requires ValidTags(tags) && n in l && SplitsUnique(l)
    requires !l[n].parentingCreated ==> CreateParenting(l, n, tags).Ok?
    ensures var l1 := if l[n].parentingCreated then l else CreateParenting(l, n, tags).value;
            && l1.Keys == l.Keys && SplitsUnique(l1) && l1[n].parentingCreated == (l[n].parentingCreated || ParentName(n, tags).Some?)
            && forall k :: k in l && l[k].parentingCreated ==> l1[k].parentingCreated
  {
    if !l[n].parentingCreated {
      var l1 := CreateParenting(l, n, tags).value;
      ParentingKeepsSplitsUnique(l, n, tags);
      forall k | k in l && l[k].parentingCreated ensures l1[k].parentingCreated {
        SplitsNamesGrow(l, n, tags, k);
      }
      if ParentName(n, tags).Some? {
        ParentingLinksChild(l, n, tags);
      }
    }
  }
}
