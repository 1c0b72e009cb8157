/** The list bookkeeping of the main window: the recent-files menu, the
    toolbar order, the registries of panes, splitters and viewers, the capped
    queue of open property panels and the histogram names. Widgets are
    represented by their identity (a number standing for the pointer). */
module MainWindow {
  import opened Common
  import opened Macros

  // ---------------------------------------------------------------- decimal numbers

  function DigitChar(d: nat): (c: char)
    requires d < 10
    ensures '0' <= c <= '9'
  {
    (48 + d) as char
  }

  predicate AllDigits(s: string) {
    forall i :: 0 <= i < |s| ==> '0' <= s[i] <= '9'
  }

  /** QString::number for a non-negative integer: its decimal digits. */
  function NatToString(n: nat): (r: string)
    ensures |r| > 0 && AllDigits(r)
    decreases n
  {
    if n < 10 then [DigitChar(n)] else NatToString(n / 10) + [DigitChar(n % 10)]
  }

  /** The value of a string of decimal digits. */
  function ParseDigits(s: string): nat
    requires AllDigits(s)
    decreases |s|
  {
    if |s| == 0 then 0 else ParseDigits(s[..|s| - 1]) * 10 + ((s[|s| - 1] as int) - 48)
  }

  /** Reading back the digits gives the number. */
  lemma {:induction false} ParseNatToString(n: nat)
    ensures ParseDigits(NatToString(n)) == n
    decreases n
  {
    if n >= 10 {
      var s := NatToString(n);
      assert s[..|s| - 1] == NatToString(n / 10);
      ParseNatToString(n / 10);
    }
  }

  // ---------------------------------------------------------------- recent files

  /** The recent-files update shared by openProjectInternal, saveProject and
      saveProjectAs: remove every copy of the file, put it first, and drop
      entries from the end beyond the menu length. */
  function UpdateRecentFiles(files: seq<string>, f: string): (r: seq<string>)
    ensures 1 <= |r| <= MaxRecentFiles
    ensures r[0] == f && f !in r[1..]
  {
    var r := Truncate([f] + RemoveAll(files, f), MaxRecentFiles);
    assert r[1..] == RemoveAll(files, f)[..|r| - 1];
    r
  }

  /** The list is the file followed by the other entries, cut to the menu length. */
  lemma RecentFilesShape(files: seq<string>, f: string)
    ensures var rest := RemoveAll(files, f); var r := UpdateRecentFiles(files, f);
            |r| == (if |rest| < MaxRecentFiles then |rest| + 1 else MaxRecentFiles)
            && forall i :: 1 <= i < |r| ==> r[i] == rest[i - 1]
  {
  }

  /** The other entries are earlier entries of the list, in their old order. */
  lemma RecentFilesOrder(files: seq<string>, f: string)
    ensures Subseq(UpdateRecentFiles(files, f)[1..], files)
  {
    var rest := RemoveAll(files, f);
    var r := UpdateRecentFiles(files, f);
    assert r[1..] == rest[..|r| - 1];
    RemoveAllSubseq(files, f);
    SubseqPrefix(rest, files, |r| - 1);
  }

  /** Nothing among the first entries is lost, other than the file itself. */
  lemma RecentFilesKeep(files: seq<string>, f: string)
    ensures forall x :: x in files[..if |files| < MaxRecentFiles then |files| else MaxRecentFiles - 1] && x != f
                        ==> x in UpdateRecentFiles(files, f)
  {
    var n := if |files| < MaxRecentFiles then |files| else MaxRecentFiles - 1;
    forall x | x in files[..n] && x != f ensures x in UpdateRecentFiles(files, f) {
      RecentFileKept(files, f, x, n);
    }
  }

  /** One entry among the first n survives: it sits at the same place in the
      filtered list, which is short enough to be kept whole. */
  lemma RecentFileKept(files: seq<string>, f: string, x: string, n: nat)
    requires n <= |files| && n < MaxRecentFiles && x in files[..n] && x != f
    ensures x in UpdateRecentFiles(files, f)
  {
    var head := RemoveAll(files[..n], f);
    var rest := RemoveAll(files, f);
    assert files[..n] + files[n..] == files;
    RemoveAllAppend(files[..n], files[n..], f);
    assert rest == head + RemoveAll(files[n..], f);
    assert x in multiset(head);
    var k :| 0 <= k < |head| && head[k] == x;
    assert rest[k] == x;
    var r := UpdateRecentFiles(files, f);
    RecentFilesShape(files, f);
    assert k + 1 < |r|;
    assert r[k + 1] == x;
  }

  /** Recording the same file twice is the same as recording it once. */
  lemma RecentFilesIdempotent(files: seq<string>, f: string)
    ensures UpdateRecentFiles(UpdateRecentFiles(files, f), f) == UpdateRecentFiles(files, f)
  {
    var r := UpdateRecentFiles(files, f);
    assert r == [f] + r[1..];
    RemoveAllAppend([f], r[1..], f);
    RemoveAllAbsent(r[1..], f);
    assert RemoveAll([f], f) == [];
  }

  /** One entry of the recent-files menu. */
  datatype RecentAction = RecentAction(text: string, data: string, visible: bool)

  /** Menu text of the i-th entry: an accelerator number and the file name. */
  function RecentText(i: nat, file: string): string {
    "&" + NatToString(i + 1) + " " + SplitPath(file).1
  }

  /** updateRecentFileActions: shows one action per listed file (up to the
      menu length) and hides the remaining ones, which keep their contents. */
  method UpdateRecentFileActions(actions: seq<RecentAction>, files: seq<string>) returns (r: seq<RecentAction>)
    requires |actions| == MaxRecentFiles
    ensures |r| == MaxRecentFiles
    ensures forall i :: 0 <= i < MaxRecentFiles ==> (r[i].visible <==> i < |files|)
    ensures forall i :: 0 <= i < MaxRecentFiles && i < |files| ==> r[i].data == files[i] && r[i].text == RecentText(i, files[i])
    ensures forall i :: |files| <= i < MaxRecentFiles ==> r[i].data == actions[i].data && r[i].text == actions[i].text
  {
    var numRecentFiles := if |files| < MaxRecentFiles then |files| else MaxRecentFiles;
    r := actions;
    for i := 0 to numRecentFiles
      invariant |r| == MaxRecentFiles
      invariant forall k :: 0 <= k < i ==> r[k] == RecentAction(RecentText(k, files[k]), files[k], true)
      invariant forall k :: i <= k < MaxRecentFiles ==> r[k] == actions[k]
    {
      r := r[i := RecentAction(RecentText(i, files[i]), files[i], true)];
    }
    for j := numRecentFiles to MaxRecentFiles
      invariant |r| == MaxRecentFiles
      invariant forall k :: 0 <= k < numRecentFiles ==> r[k] == RecentAction(RecentText(k, files[k]), files[k], true)
      invariant forall k :: numRecentFiles <= k < j ==> r[k] == actions[k].(visible := false)
      invariant forall k :: j <= k < MaxRecentFiles ==> r[k] == actions[k]
    {
      r := r[j := r[j].(visible := false)];
    }
  }

  // ---------------------------------------------------------------- toolbar order

  /** A toolbar button as the ordering sees it. */
  datatype ToolButton = ToolButton(title: string, hasChildren: bool, hasParent: bool)

  /** namedGroupsOrdered: the fixed order of the known groups. */
  const NamedGroupsOrdered: seq<string> := [
    GroupImage, GroupColor, GroupChannel, GroupMerge, GroupFilter, GroupTransform,
    GroupTime, GroupPaint, GroupKeyer, GroupMultiview, GroupDeep, GroupDefault]

  /** Only top-level buttons that hold something go on the toolbar. */
  predicate TopLevel(b: ToolButton) {
    b.hasChildren && !b.hasParent
  }

  function InGroup(g: string): ToolButton -> bool {
    b => TopLevel(b) && b.title == g
  }

  predicate Unnamed(b: ToolButton) {
    TopLevel(b) && b.title !in NamedGroupsOrdered
  }

  /** For each group name in turn, the toolbar buttons carrying it. */
  function ByGroups(buttons: seq<ToolButton>, groups: seq<string>): seq<ToolButton>
    decreases |groups|
  {
    if |groups| == 0 then []
    else ByGroups(buttons, groups[..|groups| - 1]) + Filter(buttons, InGroup(groups[|groups| - 1]))
  }

  /** The inner test of getToolButtonsOrdered: is the title one of the named groups? */
  method IsNamedGroup(title: string) returns (isNamed: bool)
    ensures isNamed <==> title in NamedGroupsOrdered
  {
    var groups := NamedGroupsOrdered;
    isNamed := false;
    var j := 0;
    while j < |groups| && !isNamed
      invariant 0 <= j <= |groups|
      invariant isNamed <==> title in groups[..j]
    {
      assert groups[..j + 1] == groups[..j] + [groups[j]];
      isNamed := title == groups[j];
      j := j + 1;
    }
    assert !isNamed ==> groups[..j] == groups;
  }

  /** One pass of getToolButtonsOrdered over the registry for group g,
      collecting the unnamed buttons as well when `first` is set. */
  method OrderingPass(buttons: seq<ToolButton>, g: string, first: bool) returns (named: seq<ToolButton>, others: seq<ToolButton>)
    ensures named == Filter(buttons, InGroup(g))
    ensures others == if first then Filter(buttons, Unnamed) else []
  {
    named := [];
    others := [];
    for i := 0 to |buttons|
      invariant named == Filter(buttons[..i], InGroup(g))
      invariant others == if first then Filter(buttons[..i], Unnamed) else []
    {
      var b := buttons[i];
      FilterStep(buttons, i, InGroup(g));
      FilterStep(buttons, i, Unnamed);
      if b.hasChildren && !b.hasParent {
        if first {
          var isNamed := IsNamedGroup(b.title);
          if !isNamed {
            others := others + [b];
          }
        }
        if b.title == g {
          named := named + [b];
        }
      }
    }
    assert buttons[..|buttons|] == buttons;
  }

  /** getToolButtonsOrdered: one pass over the registry per named group,
      collecting the unnamed buttons during the first pass. */
  method ToolButtonsOrdered(buttons: seq<ToolButton>) returns (r: seq<ToolButton>)
    ensures r == ByGroups(buttons, NamedGroupsOrdered) + Filter(buttons, Unnamed)
  {
    var groups := NamedGroupsOrdered;
    var named: seq<ToolButton> := [];
    var others: seq<ToolButton> := [];
    for n := 0 to |groups|
      invariant named == ByGroups(buttons, groups[..n])
      invariant others == if n == 0 then [] else Filter(buttons, Unnamed)
    {
      var pass, unnamed := OrderingPass(buttons, groups[n], n == 0);
      named := named + pass;
      if n == 0 {
        others := unnamed;
      }
      assert groups[..n + 1][..n] == groups[..n];
    }
    assert groups[..|groups|] == groups;
    r := named + others;
  }

  /** Position of a button's group in the fixed table; unnamed groups come last. */
  function Rank(b: ToolButton): nat {
    match FindFirst(NamedGroupsOrdered, b.title)
    case Some(k) => k
    case None => |NamedGroupsOrdered|
  }

  predicate RankSorted(s: seq<ToolButton>) {
    forall i, j :: 0 <= i < j < |s| ==> Rank(s[i]) <= Rank(s[j])
  }

  lemma NamedGroupsDistinct()
    ensures NoDup(NamedGroupsOrdered)
  {
  }

  lemma RankOfGroup(b: ToolButton, k: nat)
    requires k < |NamedGroupsOrdered| && b.title == NamedGroupsOrdered[k]
    ensures Rank(b) == k
  {
    NamedGroupsDistinct();
  }

  /** Two rank-sorted lists joined at a rank boundary stay sorted. */
  lemma RankSortedConcat(a: seq<ToolButton>, b: seq<ToolButton>, k: nat)
    requires RankSorted(a) && RankSorted(b)
    requires forall x :: x in a ==> Rank(x) <= k
    requires forall y :: y in b ==> Rank(y) >= k
    ensures RankSorted(a + b)
  {
    forall i, j | 0 <= i < j < |a + b| ensures Rank((a + b)[i]) <= Rank((a + b)[j]) {
      if j >= |a| {
        assert (a + b)[j] == b[j - |a|];
        if i >= |a| { assert (a + b)[i] == b[i - |a|]; } else { assert (a + b)[i] == a[i]; }
      } else {
        assert (a + b)[i] == a[i] && (a + b)[j] == a[j];
      }
    }
  }

  /** Every button of group g has g's position as rank, so the group's
      buttons are trivially sorted. */
  lemma GroupRanked(buttons: seq<ToolButton>, k: nat)
    requires k < |NamedGroupsOrdered|
    ensures var b := Filter(buttons, InGroup(NamedGroupsOrdered[k]));
            RankSorted(b) && forall y :: y in b ==> Rank(y) == k
  {
    var b := Filter(buttons, InGroup(NamedGroupsOrdered[k]));
    forall y | y in b ensures Rank(y) == k {
      RankOfGroup(y, k);
    }
    forall i, j | 0 <= i < j < |b| ensures Rank(b[i]) <= Rank(b[j]) {
      assert b[i] in b && b[j] in b;
    }
  }

  /** The buttons of the first n groups are exactly the top-level buttons of
      those groups, sorted by group. */
  lemma {:induction false} ByGroupsRanked(buttons: seq<ToolButton>, n: nat)
    requires n <= |NamedGroupsOrdered|
    ensures var s := ByGroups(buttons, NamedGroupsOrdered[..n]);
            && RankSorted(s)
            && (forall x :: x in s ==> Rank(x) < n)
            && forall x :: x in s <==> x in buttons && TopLevel(x) && x.title in NamedGroupsOrdered[..n]
  {
    var groups := NamedGroupsOrdered;
    if n > 0 {
      var g := groups[n - 1];
      assert groups[..n][..n - 1] == groups[..n - 1];
      assert groups[..n] == groups[..n - 1] + [g];
      ByGroupsRanked(buttons, n - 1);
      GroupRanked(buttons, n - 1);
      var a := ByGroups(buttons, groups[..n - 1]);
      var b := Filter(buttons, InGroup(g));
      assert ByGroups(buttons, groups[..n]) == a + b;
      RankSortedConcat(a, b, n - 1);
      GroupMembers(buttons, g);
      forall x ensures x in a + b <==> x in buttons && TopLevel(x) && x.title in groups[..n] {
        assert x.title in groups[..n] <==> x.title in groups[..n - 1] || x.title == g;
      }
    }
  }

  /** A group's buttons are the top-level buttons carrying its name. */
  lemma GroupMembers(buttons: seq<ToolButton>, g: string)
    ensures forall x :: x in Filter(buttons, InGroup(g)) <==> x in buttons && TopLevel(x) && x.title == g
  {
    var b := Filter(buttons, InGroup(g));
    forall x | x in b ensures TopLevel(x) && x.title == g {
      var i :| 0 <= i < |b| && b[i] == x;
    }
  }

  /** The toolbar holds exactly the top-level buttons with children, the
      named groups in table order first, then the others in registry order. */
  lemma ToolButtonsOrderedSpec(buttons: seq<ToolButton>)
    ensures var r := ByGroups(buttons, NamedGroupsOrdered) + Filter(buttons, Unnamed);
            && (forall x :: x in r <==> x in buttons && TopLevel(x))
            && RankSorted(r)
            && Subseq(Filter(buttons, Unnamed), buttons)
  {
    var groups := NamedGroupsOrdered;
    var n := |groups|;
    assert groups[..n] == groups;
    ByGroupsRanked(buttons, n);
    FilterSubseq(buttons, Unnamed);
    var a := ByGroups(buttons, groups);
    var b := Filter(buttons, Unnamed);
    forall i, j | 0 <= i < j < |b| ensures Rank(b[i]) <= Rank(b[j]) {
      assert b[i] in b && b[j] in b;
    }
    RankSortedConcat(a, b, n);
  }

  // ---------------------------------------------------------------- registries

  /** A histogram window and the name it was given. */
  datatype Histogram = Histogram(id: nat, name: string)

  /** The lists the main window keeps, each of widget identities. */
  datatype Registries = Registries(
    panes: seq<nat>, splitters: seq<nat>, viewerTabs: seq<nat>, openedPanels: seq<nat>,
    histograms: seq<Histogram>, nextHistogramIndex: nat)

  /** A fresh window: every list empty and histogram numbering starting at 1. */
  function InitialRegistries(): (r: Registries)
    ensures r.panes == [] && r.splitters == [] && r.viewerTabs == [] && r.openedPanels == [] && r.histograms == []
    ensures r.nextHistogramIndex == 1
  {
    Registries([], [], [], [], [], 1)
  }

  /** Removing something not registered, which the source asserts against. */
  datatype RegistryError = NotRegistered

  function RegisterPane(st: Registries, pane: nat): (r: Registries)
    ensures pane in r.panes && r == st.(panes := r.panes)
    ensures NoDup(st.panes) ==> NoDup(r.panes)
    ensures pane in st.panes ==> r == st
  {
    st.(panes := AddUnique(st.panes, pane))
  }

  /** removePane: the pane must be registered; its first entry is erased. */
  function RemovePane(st: Registries, pane: nat): (r: Result<Registries, RegistryError>)
    ensures r.Err? <==> pane !in st.panes
    ensures r.Ok? ==> r.value == st.(panes := r.value.panes)
                      && multiset(r.value.panes) == multiset(st.panes) - multiset{pane}
  {
    if pane in st.panes then Ok(st.(panes := RemoveFirst(st.panes, pane))) else Err(NotRegistered)
  }

  function RegisterSplitter(st: Registries, s: nat): (r: Registries)
    ensures s in r.splitters && r == st.(splitters := r.splitters)
    ensures NoDup(st.splitters) ==> NoDup(r.splitters)
    ensures s in st.splitters ==> r == st
  {
    st.(splitters := AddUnique(st.splitters, s))
  }

  /** removeSplitter: erases the first entry, and tolerates an absent splitter. */
  function RemoveSplitter(st: Registries, s: nat): (r: Registries)
    ensures r == st.(splitters := r.splitters)
    ensures multiset(r.splitters) == multiset(st.splitters) - multiset{s}
    ensures s !in st.splitters ==> r == st
  {
    st.(splitters := RemoveFirst(st.splitters, s))
  }

  /** addViewerTab: the viewer is listed once however often it is added. */
  function AddViewerTab(st: Registries, tab: nat): (r: Registries)
    ensures tab in r.viewerTabs && r == st.(viewerTabs := r.viewerTabs)
    ensures NoDup(st.viewerTabs) ==> NoDup(r.viewerTabs)
    ensures tab in st.viewerTabs ==> r == st
  {
    st.(viewerTabs := AddUnique(st.viewerTabs, tab))
  }

  /** Registering a new splitter and removing it again restores the window. */
  lemma RegisterRemoveSplitter(st: Registries, s: nat)
    requires s !in st.splitters
    ensures RemoveSplitter(RegisterSplitter(st, s), s) == st
  {
    var l := st.splitters + [s];
    assert FindFirst(l, s) == Some(|st.splitters|);
    assert l[..|st.splitters|] == st.splitters;
  }

  /** Registering a new pane and removing it again restores the window. */
  lemma RegisterRemovePane(st: Registries, pane: nat)
    requires pane !in st.panes
    ensures RemovePane(RegisterPane(st, pane), pane) == Ok(st)
  {
    var l := st.panes + [pane];
    assert RegisterPane(st, pane).panes == l;
    assert FindFirst(l, pane) == Some(|st.panes|);
    assert l[..|st.panes|] == st.panes && l[|st.panes| + 1..] == [];
    assert RemoveFirst(l, pane) == st.panes;
    assert st.(panes := st.panes) == st;
  }

  // ---------------------------------------------------------------- open property panels

  /** removeVisibleDockablePanel: erases the first entry; absent is fine. */
  function RemoveVisibleDockablePanel(st: Registries, panel: nat): (r: Registries)
    ensures r == st.(openedPanels := r.openedPanels)
    ensures multiset(r.openedPanels) == multiset(st.openedPanels) - multiset{panel}
    ensures panel !in st.openedPanels ==> r == st
  {
    st.(openedPanels := RemoveFirst(st.openedPanels, panel))
  }

  /** Closing the oldest panel, which deregisters itself. */
  function CloseOldestPanel(st: Registries): (r: Registries)
    requires |st.openedPanels| > 0
    ensures r == st.(openedPanels := st.openedPanels[1..])
  {
    RemoveVisibleDockablePanel(st, st.openedPanels[0])
  }

  /** addVisibleDockablePanel: when the list is exactly at a non-zero maximum
      the oldest panel is closed first; the new panel goes at the end. */
  function AddVisibleDockablePanel(st: Registries, panel: nat, maxPanels: nat): (r: Registries)
    ensures r == st.(openedPanels := r.openedPanels)
    ensures |r.openedPanels| > 0 && r.openedPanels[|r.openedPanels| - 1] == panel
    ensures maxPanels == 0 || |st.openedPanels| != maxPanels ==> r.openedPanels == st.openedPanels + [panel]
    ensures maxPanels != 0 && |st.openedPanels| == maxPanels ==> r.openedPanels == st.openedPanels[1..] + [panel]
  {
    var st1 := if |st.openedPanels| == maxPanels && maxPanels != 0 then CloseOldestPanel(st) else st;
    st1.(openedPanels := st1.openedPanels + [panel])
  }

  /** With a non-zero maximum that the list respects, adding a panel keeps it
      within the maximum; the panels kept are the most recently opened. */
  lemma DockablePanelCap(st: Registries, panel: nat, maxPanels: nat)
    requires maxPanels != 0 && |st.openedPanels| <= maxPanels
    ensures var r := AddVisibleDockablePanel(st, panel, maxPanels);
            && |r.openedPanels| <= maxPanels
            && r.openedPanels[..|r.openedPanels| - 1] == st.openedPanels[|st.openedPanels| + 1 - |r.openedPanels|..]
  {
  }

  /** onMaxVisibleDockablePanelChanged: a maximum of 0 means unlimited;
      otherwise the oldest panels are closed until the list fits. */
  method OnMaxVisibleDockablePanelChanged(st: Registries, maxPanels: nat) returns (r: Registries)
    ensures r == st.(openedPanels := r.openedPanels)
    ensures maxPanels == 0 || |st.openedPanels| <= maxPanels ==> r == st
    ensures maxPanels != 0 && |st.openedPanels| > maxPanels
            ==> r.openedPanels == st.openedPanels[|st.openedPanels| - maxPanels..]
  {
    r := st;
    if maxPanels == 0 {
      return;
    }
    var closed := 0;
    while |r.openedPanels| > maxPanels
      invariant closed <= |st.openedPanels|
      invariant r == st.(openedPanels := st.openedPanels[closed..])
      invariant |st.openedPanels| > maxPanels ==> closed <= |st.openedPanels| - maxPanels
      invariant |st.openedPanels| <= maxPanels ==> closed == 0
      decreases |r.openedPanels|
    {
      r := CloseOldestPanel(r);
      closed := closed + 1;
    }
  }

  // ---------------------------------------------------------------- histograms

  /** The name addNewHistogram gives the histogram with a given number. */
  function HistogramName(n: nat): string {
    "Histogram " + NatToString(n)
  }

  /** The number a histogram name carries, when it has the form above. */
  function HistogramNumber(name: string): (r: Option<nat>)
    ensures forall n: nat :: HistogramName(n) == name ==> r == Some(n)
  {
    if |name| > 10 && name[..10] == "Histogram " && AllDigits(name[10..]) then
      assert forall n: nat :: HistogramName(n) == name ==> name[10..] == NatToString(n) && ParseDigits(NatToString(n)) == n
        by { forall n: nat | HistogramName(n) == name { ParseNatToString(n); } }
      Some(ParseDigits(name[10..]))
    else
      None
  }

  /** addNewHistogram: names the window after the counter, then advances it. */
  function AddNewHistogram(st: Registries, id: nat): (r: (Registries, Histogram))
    ensures r.1 == Histogram(id, HistogramName(st.nextHistogramIndex))
    ensures r.0 == st.(histograms := st.histograms + [r.1], nextHistogramIndex := st.nextHistogramIndex + 1)
  {
    var h := Histogram(id, HistogramName(st.nextHistogramIndex));
    (st.(histograms := st.histograms + [h], nextHistogramIndex := st.nextHistogramIndex + 1), h)
  }

  /** The window after one addNewHistogram per identity in `ids`, in order. */
  function AddHistograms(st: Registries, ids: seq<nat>): Registries
    decreases |ids|
  {
    if |ids| == 0 then st else AddNewHistogram(AddHistograms(st, ids[..|ids| - 1]), ids[|ids| - 1]).0
  }

  /** In a fresh window the k-th histogram opened is named "Histogram k". */
  lemma {:induction false} HistogramsNumberedFromOne(ids: seq<nat>)
    ensures var r := AddHistograms(InitialRegistries(), ids);
            && r.nextHistogramIndex == |ids| + 1
            && |r.histograms| == |ids|
            && forall i :: 0 <= i < |ids| ==> r.histograms[i] == Histogram(ids[i], HistogramName(i + 1))
    decreases |ids|
  {
    if |ids| > 0 {
      HistogramsNumberedFromOne(ids[..|ids| - 1]);
    }
  }

  /** removeHistogram: the histogram must be listed; its entry is erased. */
  function RemoveHistogram(st: Registries, h: Histogram): (r: Result<Registries, RegistryError>)
    ensures r.Err? <==> h !in st.histograms
    ensures r.Ok? ==> r.value == st.(histograms := r.value.histograms)
                      && multiset(r.value.histograms) == multiset(st.histograms) - multiset{h}
  {
    if h in st.histograms then Ok(st.(histograms := RemoveFirst(st.histograms, h))) else Err(NotRegistered)
  }

  /** The name carries a number below `next`, that is, one already handed out. */
  predicate NumberedBelow(name: string, next: nat) {
    HistogramNumber(name).Some? && HistogramNumber(name).value < next
  }

  /** No two histograms share a name. */
  predicate DistinctNames(hs: seq<Histogram>) {
    forall i, j :: 0 <= i < j < |hs| ==> hs[i].name != hs[j].name
  }

  /** Every histogram carries a number already handed out, and no two
      histograms share a name. */
  predicate HistogramsNamed(st: Registries) {
    (forall h :: h in st.histograms ==> NumberedBelow(h.name, st.nextHistogramIndex))
    && DistinctNames(st.histograms)
  }

  lemma InitialHistogramsNamed()
    ensures HistogramsNamed(InitialRegistries())
  {
  }

  /** Adding a histogram keeps the names unique: the new number is beyond all earlier ones. */
  lemma AddNewHistogramNamed(st: Registries, id: nat)
    requires HistogramsNamed(st)
    ensures HistogramsNamed(AddNewHistogram(st, id).0)
  {
    var (r, h) := AddNewHistogram(st, id);
    assert HistogramNumber(h.name) == Some(st.nextHistogramIndex);
    forall i | 0 <= i < |st.histograms| ensures st.histograms[i].name != h.name {
      assert NumberedBelow(st.histograms[i].name, st.nextHistogramIndex);
    }
    forall i, j | 0 <= i < j < |r.histograms| ensures r.histograms[i].name != r.histograms[j].name {
      assert r.histograms[i] == st.histograms[i];
      if j < |st.histograms| {
        assert r.histograms[j] == st.histograms[j];
      }
    }
  }

  /** Dropping one entry keeps the names distinct. */
  lemma DistinctNamesDrop(hs: seq<Histogram>, i: nat)
    requires DistinctNames(hs) && i < |hs|
    ensures DistinctNames(hs[..i] + hs[i + 1..])
  {
    var r := hs[..i] + hs[i + 1..];
    forall k, l | 0 <= k < l < |r| ensures r[k].name != r[l].name {
      assert r[k] == hs[Skip(k, i)] && r[l] == hs[Skip(l, i)];
    }
  }

  /** Removing a histogram keeps the names unique. */
  lemma RemoveHistogramNamed(st: Registries, h: Histogram)
    requires HistogramsNamed(st) && h in st.histograms
    ensures HistogramsNamed(RemoveHistogram(st, h).value)
  {
    var i := FindFirst(st.histograms, h).value;
    var r := RemoveHistogram(st, h).value;
    assert r.histograms == st.histograms[..i] + st.histograms[i + 1..];
    DistinctNamesDrop(st.histograms, i);
    forall g | g in r.histograms ensures NumberedBelow(g.name, r.nextHistogramIndex) {
      assert g in multiset(r.histograms);
    }
  }

  /** Position in the original list of entry k once entry i is erased. */
  function Skip(k: nat, i: nat): (r: nat)
    ensures r >= k && (r == k <==> k < i)
  {
    if k < i then k else k + 1
  }
}
