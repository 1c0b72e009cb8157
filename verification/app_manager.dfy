/** The GUI application manager's own state: the registry of plugin tool
    buttons (the tree the toolbar is built from), the knob clipboard, and the
    file-open request deferred until the application has loaded. */
module AppManager {
  import opened Common

  // ---------------------------------------------------------------- tool-button registry

  /** PluginGroupNode: a registry entry. Parent and children are positions in
      the registry, which stands for the node pointers of the source. */
  datatype PluginGroupNode = PluginGroupNode(
    id: string, title: string, iconPath: string, parent: Option<nat>, children: seq<nat>)

  type Registry = seq<PluginGroupNode>

  /** What findPluginToolButtonOrCreate is asked for: an ID, and the label
      and icon a new entry gets. */
  datatype Entry = Entry(id: string, title: string, iconPath: string)

  function Ids(reg: Registry): (r: seq<string>)
    ensures |r| == |reg| && forall i :: 0 <= i < |reg| ==> r[i] == reg[i].id
  {
    seq(|reg|, i requires 0 <= i < |reg| => reg[i].id)
  }

  function EntryIds(es: seq<Entry>): (r: seq<string>)
    ensures |r| == |es| && forall i :: 0 <= i < |es| ==> r[i] == es[i].id
  {
    seq(|es|, i requires 0 <= i < |es| => es[i].id)
  }

  /** No two entries carry the same ID. */
  predicate UniqueIds(reg: Registry) {
    NoDup(Ids(reg))
  }

  /** Position of the first entry carrying id. */
  function IndexOf(reg: Registry, id: string): (r: nat)
    requires id in Ids(reg)
    ensures r < |reg| && reg[r].id == id
    ensures forall j :: 0 <= j < r ==> reg[j].id != id
  {
    var i := FindFirst(Ids(reg), id).value;
    assert forall j :: 0 <= j < i ==> Ids(reg)[..i][j] == reg[j].id;
    i
  }

  /** r keeps every entry of reg at its position, with its ID. */
  predicate Extends(reg: Registry, r: Registry) {
    |r| >= |reg| && forall i :: 0 <= i < |reg| ==> r[i].id == reg[i].id
  }

  lemma ExtendsTrans(a: Registry, b: Registry, c: Registry)
    requires Extends(a, b) && Extends(b, c)
    ensures Extends(a, c)
  {
  }

  /** Entries are never moved, so an ID present before keeps its position. */
  lemma IndexStable(reg: Registry, r: Registry, id: string)
    requires Extends(reg, r) && id in Ids(reg)
    ensures id in Ids(r) && IndexOf(r, id) == IndexOf(reg, id)
  {
    var k := IndexOf(reg, id);
    assert Ids(r)[k] == id;
    var k2 := IndexOf(r, id);
    if k2 < k {
      assert reg[k2].id == id;
    }
  }

  /** findPluginToolButtonOrCreate: the first entry with that ID, or a new
      entry appended at the end. */
  function FindOrCreate(reg: Registry, e: Entry): (r: (Registry, nat))
    ensures Extends(reg, r.0)
    ensures e.id in Ids(r.0) && r.1 == IndexOf(r.0, e.id)
    ensures e.id in Ids(reg) ==> r.0 == reg
    ensures e.id !in Ids(reg) ==> r.0 == reg + [PluginGroupNode(e.id, e.title, e.iconPath, None, [])]
    ensures e.id !in Ids(reg) ==> Ids(r.0) == Ids(reg) + [e.id]
  {
    if e.id in Ids(reg) then (reg, IndexOf(reg, e.id))
    else
      var r := reg + [PluginGroupNode(e.id, e.title, e.iconPath, None, [])];
      assert Ids(r) == Ids(reg) + [e.id];
      assert forall j :: 0 <= j < |reg| ==> r[j].id != e.id by {
        forall j | 0 <= j < |reg| ensures r[j].id != e.id { assert Ids(reg)[j] == r[j].id; }
      }
      (r, |reg|)
  }

  /** The only inserter keeps IDs unique, and asking twice for the same ID
      returns the same entry without growing the registry again. */
  lemma FindOrCreateUnique(reg: Registry, e: Entry, e2: Entry)
    requires e2.id == e.id
    ensures UniqueIds(reg) ==> UniqueIds(FindOrCreate(reg, e).0)
    ensures var (r, i) := FindOrCreate(reg, e);
            FindOrCreate(r, e2) == (r, i)
  {
  }

  /** c hangs under p: it names p as parent and p lists it. */
  predicate Linked(reg: Registry, p: nat, c: nat) {
    p < |reg| && c < |reg| && reg[c].parent == Some(p) && c in reg[p].children
  }

  /** tryAddChild followed by setParent: the child is listed once under the
      parent and points back to it. */
  function Link(reg: Registry, p: nat, c: nat): (r: Registry)
    requires p < |reg| && c < |reg|
    ensures |r| == |reg| && Extends(reg, r) && Ids(r) == Ids(reg)
    ensures Linked(r, p, c)
    ensures forall k :: 0 <= k < |reg| && k != c ==> r[k].parent == reg[k].parent
    ensures forall k :: 0 <= k < |reg| ==> r[k].children == reg[k].children || r[k].children == AddUnique(reg[k].children, c)
  {
    var r1 := reg[p := reg[p].(children := AddUnique(reg[p].children, c))];
    r1[c := r1[c].(parent := Some(p))]
  }

  /** One step of addPluginToolButtons: find or create the entry, then hang
      it under the current parent when there is one. */
  function Hang(reg: Registry, parent: Option<nat>, e: Entry): (r: (Registry, nat))
    requires parent.Some? ==> parent.value < |reg|
    ensures Extends(reg, r.0)
    ensures e.id in Ids(r.0) && r.1 == IndexOf(r.0, e.id)
    ensures parent.Some? ==> Linked(r.0, parent.value, r.1)
    ensures parent.None? ==> r.0 == FindOrCreate(reg, e).0
    ensures Ids(r.0) == Ids(FindOrCreate(reg, e).0)
  {
    var (reg1, c) := FindOrCreate(reg, e);
    if parent.Some? then
      var r := Link(reg1, parent.value, c);
      ExtendsTrans(reg, reg1, r);
      IndexStable(reg1, r, e.id);
      (r, c)
    else (reg1, c)
  }

  /** A step changes no parent but the hung entry's, and only adds children. */
  lemma HangFrame(reg: Registry, parent: Option<nat>, e: Entry, k: nat)
    requires parent.Some? ==> parent.value < |reg|
    requires k < |reg|
    ensures var r := Hang(reg, parent, e).0;
            && (reg[k].id != e.id ==> r[k].parent == reg[k].parent)
            && forall x :: x in reg[k].children ==> x in r[k].children
  {
    var (reg1, c) := FindOrCreate(reg, e);
    assert reg1[k] == reg[k];
    assert reg[k].id != e.id ==> k != c;
  }

  /** A step keeps IDs unique. */
  lemma HangUnique(reg: Registry, parent: Option<nat>, e: Entry)
    requires parent.Some? ==> parent.value < |reg|
    requires UniqueIds(reg)
    ensures UniqueIds(Hang(reg, parent, e).0)
  {
    FindOrCreateUnique(reg, e, e);
  }

  /** The group loop of addPluginToolButtons: each entry is found or created
      and hung under the previous one. */
  function AddChain(reg: Registry, parent: Option<nat>, es: seq<Entry>): (r: (Registry, Option<nat>))
    requires parent.Some? ==> parent.value < |reg|
    ensures Extends(reg, r.0)
    ensures r.1.Some? ==> r.1.value < |r.0|
    ensures |es| == 0 ==> r == (reg, parent)
    decreases |es|
  {
    if |es| == 0 then (reg, parent)
    else
      var (reg1, child) := Hang(reg, parent, es[0]);
      var r := AddChain(reg1, Some(child), es[1..]);
      ExtendsTrans(reg, reg1, r.0);
      r
  }

  /** The entries a group path asks for: each group is its own label. */
  function GroupEntries(groups: seq<string>, groupIcon: string): (r: seq<Entry>)
    ensures EntryIds(r) == groups
  {
    var r := seq(|groups|, i requires 0 <= i < |groups| => Entry(groups[i], groups[i], groupIcon));
    assert forall i :: 0 <= i < |groups| ==> EntryIds(r)[i] == groups[i];
    r
  }

  /** addPluginToolButtons: the group chain, then the plugin under the last group. */
  function AddPluginToolButtons(reg: Registry, groups: seq<string>, pluginID: string, pluginLabel: string,
                                pluginIcon: string, groupIcon: string): (r: Registry)
    ensures Extends(reg, r) && pluginID in Ids(r)
  {
    var (reg1, parent) := AddChain(reg, None, GroupEntries(groups, groupIcon));
    var r := Hang(reg1, parent, Entry(pluginID, pluginLabel, pluginIcon)).0;
    ExtendsTrans(reg, reg1, r);
    r
  }

  /** The plugin step is one more step of the chain. */
  lemma {:induction false} AddChainSnoc(reg: Registry, parent: Option<nat>, es: seq<Entry>, e: Entry)
    requires parent.Some? ==> parent.value < |reg|
    ensures var (r1, p1) := AddChain(reg, parent, es);
            var (r2, c) := Hang(r1, p1, e);
            AddChain(reg, parent, es + [e]) == (r2, Some(c))
    decreases |es|
  {
    if |es| == 0 {
      assert es + [e] == [e];
    } else {
      var (reg1, child) := Hang(reg, parent, es[0]);
      assert (es + [e])[0] == es[0] && (es + [e])[1..] == es[1..] + [e];
      AddChainSnoc(reg1, Some(child), es[1..], e);
    }
  }

  lemma EntryIdsCons(es: seq<Entry>)
    requires |es| > 0
    ensures EntryIds(es) == [es[0].id] + EntryIds(es[1..])
  {
  }

  /** The chain registers every entry's ID. */
  lemma {:induction false} AddChainRegisters(reg: Registry, parent: Option<nat>, es: seq<Entry>)
    requires parent.Some? ==> parent.value < |reg|
    ensures forall x :: x in EntryIds(es) ==> x in Ids(AddChain(reg, parent, es).0)
    decreases |es|
  {
    if |es| > 0 {
      var (reg1, child) := Hang(reg, parent, es[0]);
      var r := AddChain(reg1, Some(child), es[1..]).0;
      AddChainRegisters(reg1, Some(child), es[1..]);
      IndexStable(reg1, r, es[0].id);
      EntryIdsCons(es);
    }
  }

  /** The chain keeps IDs unique. */
  lemma {:induction false} AddChainUnique(reg: Registry, parent: Option<nat>, es: seq<Entry>)
    requires parent.Some? ==> parent.value < |reg|
    requires UniqueIds(reg)
    ensures UniqueIds(AddChain(reg, parent, es).0)
    decreases |es|
  {
    if |es| > 0 {
      var (reg1, child) := Hang(reg, parent, es[0]);
      HangUnique(reg, parent, es[0]);
      AddChainUnique(reg1, Some(child), es[1..]);
    }
  }

  /** The chain introduces no ID but the entries'. */
  lemma {:induction false} AddChainOnlyEntries(reg: Registry, parent: Option<nat>, es: seq<Entry>)
    requires parent.Some? ==> parent.value < |reg|
    ensures forall x :: x in Ids(AddChain(reg, parent, es).0) ==> x in Ids(reg) || x in EntryIds(es)
    decreases |es|
  {
    if |es| > 0 {
      var (reg1, child) := Hang(reg, parent, es[0]);
      AddChainOnlyEntries(reg1, Some(child), es[1..]);
      EntryIdsCons(es);
      HangIds(reg, parent, es[0]);
    }
  }

  /** A step adds at most the hung entry's ID. */
  lemma HangIds(reg: Registry, parent: Option<nat>, e: Entry)
    requires parent.Some? ==> parent.value < |reg|
    ensures forall x :: x in Ids(Hang(reg, parent, e).0) ==> x in Ids(reg) || x == e.id
  {
    var ids := Ids(Hang(reg, parent, e).0);
    if e.id !in Ids(reg) {
      assert ids == Ids(reg) + [e.id];
    }
  }

  /** Entries whose ID is not asked for keep their parent, and every
      children list only grows. */
  lemma {:induction false} AddChainFrame(reg: Registry, parent: Option<nat>, es: seq<Entry>, k: nat)
    requires parent.Some? ==> parent.value < |reg|
    requires k < |reg|
    ensures var r := AddChain(reg, parent, es).0;
            && (reg[k].id !in EntryIds(es) ==> r[k].parent == reg[k].parent)
            && forall x :: x in reg[k].children ==> x in r[k].children
    decreases |es|
  {
    if |es| > 0 {
      var (reg1, child) := Hang(reg, parent, es[0]);
      HangFrame(reg, parent, es[0], k);
      EntryIdsCons(es);
      assert reg1[k].id == reg[k].id;
      AddChainFrame(reg1, Some(child), es[1..], k);
    }
  }

  /** The chain hands back the entry of the last ID. */
  lemma {:induction false} AddChainLast(reg: Registry, parent: Option<nat>, es: seq<Entry>)
    requires parent.Some? ==> parent.value < |reg|
    requires |es| > 0
    ensures var (r, last) := AddChain(reg, parent, es);
            es[|es| - 1].id in Ids(r) && last == Some(IndexOf(r, es[|es| - 1].id))
    decreases |es|
  {
    var (reg1, child) := Hang(reg, parent, es[0]);
    if |es| > 1 {
      AddChainLast(reg1, Some(child), es[1..]);
      assert es[1..][|es[1..]| - 1] == es[|es| - 1];
    }
  }

  /** The first entry hangs under the starting parent, provided its ID does
      not come back later in the chain. */
  lemma AddChainFirst(reg: Registry, parent: Option<nat>, es: seq<Entry>)
    requires parent.Some? ==> parent.value < |reg|
    requires |es| > 0 && es[0].id !in EntryIds(es[1..])
    ensures var r := AddChain(reg, parent, es).0;
            && es[0].id in Ids(r)
            && IndexOf(r, es[0].id) == Hang(reg, parent, es[0]).1
            && (parent.Some? ==> Linked(r, parent.value, IndexOf(r, es[0].id)))
  {
    var (reg1, child) := Hang(reg, parent, es[0]);
    var rest := es[1..];
    var r := AddChain(reg1, Some(child), rest).0;
    IndexStable(reg1, r, es[0].id);
    AddChainFrame(reg1, Some(child), rest, child);
    if parent.Some? {
      AddChainFrame(reg1, Some(child), rest, parent.value);
    }
  }

  /** The entry with ID ids[i + 1] hangs under the entry with ID ids[i]. */
  predicate LinkedAt(r: Registry, ids: seq<string>, i: nat)
    requires i + 1 < |ids|
  {
    ids[i] in Ids(r) && ids[i + 1] in Ids(r) && Linked(r, IndexOf(r, ids[i]), IndexOf(r, ids[i + 1]))
  }

  /** Links along the tail of an ID list, plus the link from its head, are
      links along the whole list. */
  lemma LinkedAtShift(r: Registry, ids: seq<string>)
    requires |ids| > 1 && LinkedAt(r, ids, 0)
    requires forall j :: 0 <= j < |ids| - 2 ==> LinkedAt(r, ids[1..], j)
    ensures forall i :: 0 <= i < |ids| - 1 ==> LinkedAt(r, ids, i)
  {
    forall i | 0 < i < |ids| - 1 ensures LinkedAt(r, ids, i) {
      assert LinkedAt(r, ids[1..], i - 1);
      assert ids[1..][i - 1] == ids[i] && ids[1..][i] == ids[i + 1];
    }
  }

  /** With distinct IDs, the second entry hangs under the first. */
  lemma AddChainFirstLink(reg: Registry, parent: Option<nat>, es: seq<Entry>)
    requires parent.Some? ==> parent.value < |reg|
    requires |es| > 1 && NoDup(EntryIds(es))
    ensures LinkedAt(AddChain(reg, parent, es).0, EntryIds(es), 0)
  {
    var (reg1, child) := Hang(reg, parent, es[0]);
    var rest := es[1..];
    EntryIdsCons(es);
    EntryIdsCons(rest);
    NoDupCons(EntryIds(es));
    NoDupCons(EntryIds(rest));
    AddChainFirst(reg, parent, es);
    AddChainFirst(reg1, Some(child), rest);
  }

  /** With distinct IDs, each entry hangs under the one before it. */
  lemma {:induction false} AddChainLinks(reg: Registry, parent: Option<nat>, es: seq<Entry>)
    requires parent.Some? ==> parent.value < |reg|
    requires NoDup(EntryIds(es))
    ensures forall i :: 0 <= i < |es| - 1 ==> LinkedAt(AddChain(reg, parent, es).0, EntryIds(es), i)
    decreases |es|
  {
    if |es| > 1 {
      var (reg1, child) := Hang(reg, parent, es[0]);
      var rest := es[1..];
      var r := AddChain(reg1, Some(child), rest).0;
      EntryIdsCons(es);
      NoDupCons(EntryIds(es));
      AddChainLinks(reg1, Some(child), rest);
      AddChainFirstLink(reg, parent, es);
      LinkedAtShift(r, EntryIds(es));
    }
  }

  /** The entries addPluginToolButtons asks for, in order. */
  function PluginEntries(groups: seq<string>, pluginID: string, pluginLabel: string,
                         pluginIcon: string, groupIcon: string): (r: seq<Entry>)
    ensures EntryIds(r) == groups + [pluginID]
  {
    var r := GroupEntries(groups, groupIcon) + [Entry(pluginID, pluginLabel, pluginIcon)];
    assert EntryIds(r) == EntryIds(GroupEntries(groups, groupIcon)) + [pluginID];
    r
  }

  /** addPluginToolButtons is the chain over the groups followed by the plugin. */
  lemma AddPluginToolButtonsChain(reg: Registry, groups: seq<string>, pluginID: string, pluginLabel: string,
                                  pluginIcon: string, groupIcon: string)
    ensures AddPluginToolButtons(reg, groups, pluginID, pluginLabel, pluginIcon, groupIcon)
            == AddChain(reg, None, PluginEntries(groups, pluginID, pluginLabel, pluginIcon, groupIcon)).0
  {
    AddChainSnoc(reg, None, GroupEntries(groups, groupIcon), Entry(pluginID, pluginLabel, pluginIcon));
  }

  /** addPluginToolButtons keeps IDs unique, and with no groups it only
      finds or creates the plugin's entry, setting no parent. */
  lemma AddPluginToolButtonsUnique(reg: Registry, groups: seq<string>, pluginID: string, pluginLabel: string,
                                   pluginIcon: string, groupIcon: string)
    ensures UniqueIds(reg) ==> UniqueIds(AddPluginToolButtons(reg, groups, pluginID, pluginLabel, pluginIcon, groupIcon))
    ensures |groups| == 0 ==> AddPluginToolButtons(reg, groups, pluginID, pluginLabel, pluginIcon, groupIcon)
                              == FindOrCreate(reg, Entry(pluginID, pluginLabel, pluginIcon)).0
  {
    AddPluginToolButtonsChain(reg, groups, pluginID, pluginLabel, pluginIcon, groupIcon);
    if UniqueIds(reg) {
      AddChainUnique(reg, None, PluginEntries(groups, pluginID, pluginLabel, pluginIcon, groupIcon));
    }
  }

  /** addPluginToolButtons registers every group and the plugin, and nothing else. */
  lemma AddPluginToolButtonsRegisters(reg: Registry, groups: seq<string>, pluginID: string, pluginLabel: string,
                                      pluginIcon: string, groupIcon: string)
    ensures forall x :: x in Ids(AddPluginToolButtons(reg, groups, pluginID, pluginLabel, pluginIcon, groupIcon))
                        <==> x in Ids(reg) || x in groups || x == pluginID
  {
    var es := PluginEntries(groups, pluginID, pluginLabel, pluginIcon, groupIcon);
    AddPluginToolButtonsChain(reg, groups, pluginID, pluginLabel, pluginIcon, groupIcon);
    AddChainOnlyEntries(reg, None, es);
    AddChainRegisters(reg, None, es);
    var r := AddPluginToolButtons(reg, groups, pluginID, pluginLabel, pluginIcon, groupIcon);
    forall x | x in Ids(reg) ensures x in Ids(r) {
      IndexStable(reg, r, x);
    }
  }

  /** With distinct names, each group hangs under the one before it and the
      plugin under the last group. */
  lemma AddPluginToolButtonsLinks(reg: Registry, groups: seq<string>, pluginID: string, pluginLabel: string,
                                  pluginIcon: string, groupIcon: string)
    requires NoDup(groups + [pluginID])
    ensures forall i :: 0 <= i < |groups| ==>
              LinkedAt(AddPluginToolButtons(reg, groups, pluginID, pluginLabel, pluginIcon, groupIcon), groups + [pluginID], i)
  {
    AddPluginToolButtonsChain(reg, groups, pluginID, pluginLabel, pluginIcon, groupIcon);
    AddChainLinks(reg, None, PluginEntries(groups, pluginID, pluginLabel, pluginIcon, groupIcon));
  }

  // ---------------------------------------------------------------- knob clipboard

  /** What a copy of a knob puts on the clipboard: values, animation curves,
      string animation and parametric curves, for one dimension or all (-1). */
  datatype ClipContents<V, C> = ClipContents(
    copyAnimation: bool, dimension: int, values: seq<V>, animation: seq<C>,
    stringAnimation: map<int, string>, parametricCurves: seq<C>)

  /** KnobsClipBoard, field for field. */
  datatype KnobsClipBoard<V, C> = KnobsClipBoard(
    values: seq<V>, curves: seq<C>, parametricCurves: seq<C>, stringAnimation: map<int, string>,
    isEmpty: bool, copyAnimation: bool, dimension: int)

  /** initGui marks the clipboard empty and touches nothing else. */
  function InitClipBoard<V, C>(cb: KnobsClipBoard<V, C>): (r: KnobsClipBoard<V, C>)
    ensures IsClipBoardEmpty(r)
    ensures GetKnobClipBoard(r) == GetKnobClipBoard(cb)
  {
    cb.(isEmpty := true)
  }

  function IsClipBoardEmpty<V, C>(cb: KnobsClipBoard<V, C>): bool {
    cb.isEmpty
  }

  function SetKnobClipBoard<V, C>(cb: KnobsClipBoard<V, C>, c: ClipContents<V, C>): (r: KnobsClipBoard<V, C>)
    ensures !IsClipBoardEmpty(r)
    ensures GetKnobClipBoard(r) == c
  {
    KnobsClipBoard(c.values, c.animation, c.parametricCurves, c.stringAnimation, false, c.copyAnimation, c.dimension)
  }

  function GetKnobClipBoard<V, C>(cb: KnobsClipBoard<V, C>): ClipContents<V, C> {
    ClipContents(cb.copyAnimation, cb.dimension, cb.values, cb.curves, cb.stringAnimation, cb.parametricCurves)
  }

  /** Reading the clipboard does not depend on how it was filled before the
      last copy: the last copy wins. */
  lemma ClipBoardLastCopyWins<V, C>(cb1: KnobsClipBoard<V, C>, cb2: KnobsClipBoard<V, C>, c: ClipContents<V, C>)
    ensures SetKnobClipBoard(cb1, c) == SetKnobClipBoard(cb2, c)
  {
    assert SetKnobClipBoard(cb1, c).values == c.values;
  }

  // ---------------------------------------------------------------- open-file request

  /** Where a requested project is loaded: in the main instance when its graph
      holds nothing worth keeping, otherwise in a new instance. */
  datatype LoadAction = LoadInMainApp(path: string, file: string) | LoadInNewApp(path: string, file: string)

  /** The pending request and the loads issued so far. */
  datatype OpenFileState = OpenFileState(request: string, loads: seq<LoadAction>)

  /** handleOpenFileRequest: takes the request, clears it and loads it.
      `reuseMainApp` is whether instance 0 exists and its graph is worthless. */
  function HandleOpenFileRequest(st: OpenFileState, reuseMainApp: bool): (r: OpenFileState)
    ensures r.request == []
    ensures |r.loads| == |st.loads| + 1 && r.loads[..|st.loads|] == st.loads
    ensures r.loads[|st.loads|].path + r.loads[|st.loads|].file == st.request
    ensures r.loads[|st.loads|].LoadInMainApp? <==> reuseMainApp
  {
    var (path, file) := SplitPath(st.request);
    var load := if reuseMainApp then LoadInMainApp(path, file) else LoadInNewApp(path, file);
    OpenFileState([], st.loads + [load])
  }

  /** setFileToOpen: records the request and handles it at once only when the
      application is loaded and the request is not empty. */
  function SetFileToOpen(st: OpenFileState, str: string, loaded: bool, reuseMainApp: bool): (r: OpenFileState)
    ensures loaded && str != [] ==> r == HandleOpenFileRequest(st.(request := str), reuseMainApp)
    ensures !(loaded && str != []) ==> r == st.(request := str)
  {
    var st1 := st.(request := str);
    if loaded && str != [] then HandleOpenFileRequest(st1, reuseMainApp) else st1
  }

  /** onLoadCompleted: handles a request kept while loading. */
  function OnLoadCompleted(st: OpenFileState, reuseMainApp: bool): (r: OpenFileState)
    ensures r.request == []
    ensures st.request == [] ==> r == st
    ensures st.request != [] ==> |r.loads| == |st.loads| + 1
  {
    if st.request != [] then HandleOpenFileRequest(st, reuseMainApp) else st
  }

  /** A request made before loading completes is loaded exactly once, when
      loading completes, and a second completion loads nothing more. */
  lemma DeferredRequestLoadedOnce(st: OpenFileState, str: string, reuse: bool, reuse2: bool)
    requires str != []
    ensures var kept := SetFileToOpen(st, str, false, reuse);
            var done := OnLoadCompleted(kept, reuse2);
            && kept.request == str && kept.loads == st.loads
            && |done.loads| == |st.loads| + 1 && done.loads[..|st.loads|] == st.loads
            && done.loads[|st.loads|].path + done.loads[|st.loads|].file == str
            && OnLoadCompleted(done, reuse) == done
  {
  }
}
