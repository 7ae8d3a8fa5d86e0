/**
 Window layouts: splits and containers as JSON and back, the normalisation done when a layout is
 loaded, and the choice of the tab that shows a channel.
 */
module WindowLayouts {
  import opened Prelude

  datatype Json =
    | Undefined
    | Null
    | Bool(b: bool)
    | Number(n: real)
    | Str(s: string)
    | Array(elements: seq<Json>)
    | Object(fields: map<string, Json>)

  // The lenient accessors: a value of another kind reads as the default.

  function Field(j: Json, key: string): (r: Json)
    ensures r == Undefined || r < j
  {
    if j.Object? && key in j.fields then j.fields[key] else Undefined
  }

  function AsString(j: Json): string { if j.Str? then j.s else "" }

  function AsBool(j: Json, default_: bool): bool { if j.Bool? then j.b else default_ }

  function AsReal(j: Json, default_: real): real { if j.Number? then j.n else default_ }

  /** `toInt`: only whole numbers in the range of an int. */
  function AsInt(j: Json, default_: int): (r: int)
    ensures r == default_ || (j.Number? && j.n == r as real && -0x8000_0000 <= r <= 0x7FFF_FFFF)
    ensures j.Number? && j.n == j.n.Floor as real && -0x8000_0000 as real <= j.n <= 0x7FFF_FFFF as real ==> j.n == r as real
  {
    if j.Number? && j.n.Floor as real == j.n && -0x8000_0000 <= j.n.Floor < 0x8000_0000 then j.n.Floor else default_
  }

  function AsArray(j: Json): (r: seq<Json>)
    ensures forall e :: e in r ==> e < j
  {
    if j.Array? then j.elements else []
  }

  // ---------------------------------------------------------------------------------------------
  // Splits and containers
  // ---------------------------------------------------------------------------------------------

  datatype Uuid = Uuid(bits: nat)

  /** The text form of identifiers. */
  datatype UuidCodec = UuidCodec(text: Uuid -> string, parse: string -> Uuid) {
    ghost predicate Valid() {
      forall u :: parse(text(u)) == u
    }
  }

  datatype SplitDescriptor = SplitDescriptor(
    type_: string, channelName: string, server: int, moderationMode: bool,
    spellCheckOverride: Option<bool>, filters: seq<Uuid>)

  datatype Node =
    | Split(split: SplitDescriptor, flexH: real, flexV: real)
    | Container(flexH: real, flexV: real, vertical: bool, items: seq<Node>)

  function SplitFields(c: UuidCodec, d: SplitDescriptor): map<string, Json> {
    var data := map["type" := Str(d.type_)];
    var named := if d.channelName != "" then data["name" := Str(d.channelName)] else data;
    var fields := map[
      "type" := Str("split"), "moderationMode" := Bool(d.moderationMode), "data" := Object(named),
      "filters" := Array(seq(|d.filters|, i requires 0 <= i < |d.filters| => Str(c.text(d.filters[i]))))];
    if d.spellCheckOverride.Some? then fields["checkSpelling" := Bool(d.spellCheckOverride.value)] else fields
  }

  function ToJson(c: UuidCodec, node: Node): Json {
    match node
    case Split(d, flexH, flexV) =>
      Object(SplitFields(c, d)["flexh" := Number(flexH)]["flexv" := Number(flexV)])
    case Container(flexH, flexV, vertical, items) =>
      Object(map[
        "type" := Str(if vertical then "vertical" else "horizontal"),
        "flexh" := Number(flexH), "flexv" := Number(flexV),
        "items" := Array(seq(|items|, i requires 0 <= i < |items| => ToJson(c, items[i])))])
  }

  function LoadFilters(c: UuidCodec, j: Json): seq<Uuid> {
    var array_ := AsArray(j);
    seq(|array_|, i requires 0 <= i < |array_| => c.parse(AsString(array_[i])))
  }

  function LoadSplit(c: UuidCodec, root: Json): SplitDescriptor {
    var data := Field(root, "data");
    SplitDescriptor(
      AsString(Field(data, "type")),
      AsString(if Field(data, "channel") != Undefined then Field(data, "channel") else Field(data, "name")),
      AsInt(Field(data, "server"), -1),
      AsBool(Field(root, "moderationMode"), false),
      if Field(root, "checkSpelling").Bool? then Some(Field(root, "checkSpelling").b) else None,
      LoadFilters(c, Field(root, "filters")))
  }

  function LoadSplitNode(c: UuidCodec, root: Json): Node {
    Split(LoadSplit(c, root), AsReal(Field(root, "flexh"), 1.0), AsReal(Field(root, "flexv"), 1.0))
  }

  /** Items that do not say "split" are containers. */
  function LoadContainer(c: UuidCodec, root: Json): Node
    decreases root, 0
  {
    var array_ := AsArray(Field(root, "items"));
    Container(
      AsReal(Field(root, "flexh"), 1.0), AsReal(Field(root, "flexv"), 1.0),
      AsString(Field(root, "type")) == "vertical",
      seq(|array_|, i requires 0 <= i < |array_| =>
        assert array_[i] in array_;
        LoadItem(c, array_[i])))
  }

  function LoadItem(c: UuidCodec, j: Json): Node
    decreases j, 1
  {
    if AsString(Field(j, "type")) == "split" then LoadSplitNode(c, j) else LoadContainer(c, j)
  }

  /** No split names a server. */
  predicate ServersUnset(node: Node) {
    match node
    case Split(d, _, _) => d.server == -1
    case Container(_, _, _, items) => forall i :: 0 <= i < |items| ==> ServersUnset(items[i])
  }

  lemma SplitRoundTrip(c: UuidCodec, d: SplitDescriptor, root: Json, extra: map<string, Json>)
    requires c.Valid()
    requires extra.Keys !! {"type", "moderationMode", "data", "filters", "checkSpelling"}
    requires root == Object(SplitFields(c, d) + extra)
    ensures LoadSplit(c, root) == d.(server := -1) && AsString(Field(root, "type")) == "split"
  {
    var printed := seq(|d.filters|, i requires 0 <= i < |d.filters| => Str(c.text(d.filters[i])));
    assert AsArray(Field(root, "filters")) == printed;
    assert forall i :: 0 <= i < |d.filters| ==> c.parse(AsString(printed[i])) == d.filters[i];
    assert LoadSplit(c, root).filters == d.filters;
  }

  /** Under which names a node is written; an empty channel name, a missing override and the server are not. */
  lemma PrintedSplit(c: UuidCodec, d: SplitDescriptor)
    ensures var j := Object(SplitFields(c, d));
            var data := Field(j, "data");
            && Field(j, "type") == Str("split") && Field(j, "moderationMode") == Bool(d.moderationMode)
            && Field(data, "type") == Str(d.type_) && Field(data, "server") == Undefined
            && Field(data, "name") == (if d.channelName == "" then Undefined else Str(d.channelName))
            && Field(j, "checkSpelling") == (if d.spellCheckOverride.None? then Undefined
                                             else Bool(d.spellCheckOverride.value))
            && Field(j, "filters").Array? && |Field(j, "filters").elements| == |d.filters|
            && forall i :: 0 <= i < |d.filters| ==> Field(j, "filters").elements[i] == Str(c.text(d.filters[i]))
  {
  }

  lemma PrintedNode(c: UuidCodec, node: Node)
    ensures var j := ToJson(c, node);
            && Field(j, "flexh") == Number(node.flexH) && Field(j, "flexv") == Number(node.flexV)
            && (node.Split? ==> forall key :: key !in ["flexh", "flexv"] ==>
                                  Field(j, key) == Field(Object(SplitFields(c, node.split)), key))
            && (node.Container? ==>
                  && Field(j, "type") == Str(if node.vertical then "vertical" else "horizontal")
                  && Field(j, "items").Array? && |Field(j, "items").elements| == |node.items|
                  && forall i :: 0 <= i < |node.items| ==> Field(j, "items").elements[i] == ToJson(c, node.items[i]))
  {
    hide SplitFields;
  }

  /** What is read where a file says nothing or something of another kind, and that "channel" goes before "name". */
  lemma MissingFields(c: UuidCodec, fields: map<string, Json>)
    ensures LoadSplitNode(c, Object(map[])) == Split(SplitDescriptor("", "", -1, false, None, []), 1.0, 1.0)
    ensures LoadContainer(c, Object(map[])) == Container(1.0, 1.0, false, [])
    ensures LoadTab(c, Object(map[])) == Tab("", false, true, None)
    ensures "channel" in fields && fields["channel"].Str? ==>
              LoadSplit(c, Object(map["data" := Object(fields)])).channelName == fields["channel"].s
    ensures "channel" !in fields && "name" in fields && fields["name"].Str? ==>
              LoadSplit(c, Object(map["data" := Object(fields)])).channelName == fields["name"].s
    ensures forall j: Json :: !j.Str? ==> AsString(j) == ""
    ensures forall j: Json, d: bool :: !j.Bool? ==> AsBool(j, d) == d
    ensures forall j: Json, d: real :: !j.Number? ==> AsReal(j, d) == d
    ensures forall j: Json, d: int :: !j.Number? ==> AsInt(j, d) == d
    ensures forall j: Json :: !j.Array? ==> AsArray(j) == []
  {
  }

  /**
   Loading what was printed gives the same tree, whatever its shape and depth, exactly when no split
   names a server: the printer does not write it.
   */
  lemma {:induction false} RoundTrip(c: UuidCodec, node: Node)
    requires c.Valid()
    ensures LoadItem(c, ToJson(c, node)) == node <==> ServersUnset(node)
  {
    match node {
      case Split(d, flexH, flexV) =>
        var extra := map["flexh" := Number(flexH), "flexv" := Number(flexV)];
        assert SplitFields(c, d)["flexh" := Number(flexH)]["flexv" := Number(flexV)] == SplitFields(c, d) + extra;
        SplitRoundTrip(c, d, ToJson(c, node), extra);
      case Container(flexH, flexV, vertical, items) =>
        var j := ToJson(c, node);
        forall i | 0 <= i < |items| ensures LoadItem(c, ToJson(c, items[i])) == items[i] <==> ServersUnset(items[i]) {
          RoundTrip(c, items[i]);
        }
        assert AsString(Field(j, "type")) == if vertical then "vertical" else "horizontal";
        assert AsArray(Field(j, "items")) == seq(|items|, i requires 0 <= i < |items| => ToJson(c, items[i]));
        var loaded := LoadContainer(c, j);
        assert |loaded.items| == |items| && forall i :: 0 <= i < |items| ==> loaded.items[i] == LoadItem(c, ToJson(c, items[i]));
        assert loaded.items == items <==> ServersUnset(node);
    }
  }

  // ---------------------------------------------------------------------------------------------
  // Loading a layout
  // ---------------------------------------------------------------------------------------------

  datatype Tab = Tab(customTitle: string, selected: bool, highlightsEnabled: bool, rootNode: Option<Node>)

  datatype WindowType = Main | Popup

  datatype WindowState = Normal | Minimized | Maximized

  datatype Rect = Rect(x: int, y: int, width: int, height: int)

  datatype Window = Window(
    type_: WindowType, state: WindowState, geometry: Rect, popupID: Option<nat>, tabs: seq<Tab>)

  datatype Loaded = Failed(message: string) | Layout(windows: seq<Window>, emotePopupBounds: Rect)

  function LoadTab(c: UuidCodec, j: Json): Tab {
    var splitRoot := Field(j, "splits2");
    var nodeType := AsString(Field(splitRoot, "type"));
    Tab(AsString(Field(j, "title")), AsBool(Field(j, "selected"), false), AsBool(Field(j, "highlightsEnabled"), true),
        if nodeType == "split" then Some(LoadSplitNode(c, splitRoot))
        else if nodeType == "horizontal" || nodeType == "vertical" then Some(LoadContainer(c, splitRoot))
        else None)
  }

  function WantsMain(j: Json): bool { AsString(Field(j, "type")) == "main" }

  function LoadState(j: Json): WindowState {
    if Field(j, "state") == Str("minimized") then Minimized
    else if Field(j, "state") == Str("maximized") then Maximized
    else Normal
  }

  function LoadRect(j: Json, default_: int): Rect {
    Rect(AsInt(Field(j, "x"), default_), AsInt(Field(j, "y"), default_),
         AsInt(Field(j, "width"), default_), AsInt(Field(j, "height"), default_))
  }

  /** A 32 bit number stored in an unsigned 64 bit one. */
  function LoadPopupID(j: Json): Option<nat> {
    var id := Field(j, "popupID");
    if id.Number? then Some(AsInt(id, 1) % 0x1_0000_0000_0000_0000) else None
  }

  /** What the file says about a tab, field by field. */
  ghost predicate TabReads(c: UuidCodec, j: Json, tab: Tab) {
    var root := Field(j, "splits2");
    && tab.customTitle == AsString(Field(j, "title"))
    && tab.highlightsEnabled == AsBool(Field(j, "highlightsEnabled"), true)
    && (tab.rootNode.Some? <==> AsString(Field(root, "type")) in ["split", "horizontal", "vertical"])
    && (tab.rootNode.Some? ==> tab.rootNode.value == LoadItem(c, root))
  }

  lemma LoadTabIs(c: UuidCodec, j: Json)
    ensures TabReads(c, j, LoadTab(c, j))
    ensures LoadTab(c, j).selected == AsBool(Field(j, "selected"), false)
  {
  }

  /** Tab `k` is read as it is, except that only the first selected one stays selected. */
  ghost predicate TabFrom(c: UuidCodec, array_: seq<Json>, k: nat, tab: Tab)
    requires k < |array_|
  {
    && TabReads(c, array_[k], tab.(selected := AsBool(Field(array_[k], "selected"), false)))
    && (tab.selected <==> AsBool(Field(array_[k], "selected"), false)
                          && forall j :: 0 <= j < k ==> !AsBool(Field(array_[j], "selected"), false))
  }

  /** Window `i` is read as it is, except that only the first main window stays one. */
  ghost predicate WindowFrom(c: UuidCodec, array_: seq<Json>, i: nat, window: Window)
    requires i < |array_|
  {
    var j := array_[i];
    var tabs := AsArray(Field(j, "tabs"));
    && (window.type_ == Main <==> AsString(Field(j, "type")) == "main" && forall h :: 0 <= h < i ==> !WantsMain(array_[h]))
    && (window.state == Minimized <==> Field(j, "state") == Str("minimized"))
    && (window.state == Maximized <==> Field(j, "state") == Str("maximized"))
    && window.geometry.x == AsInt(Field(j, "x"), -1) && window.geometry.y == AsInt(Field(j, "y"), -1)
    && window.geometry.width == AsInt(Field(j, "width"), -1) && window.geometry.height == AsInt(Field(j, "height"), -1)
    && (window.popupID.Some? <==> Field(j, "popupID").Number?)
    && (window.popupID.Some? ==>
          && window.popupID.value < 0x1_0000_0000_0000_0000
          && (window.popupID.value - AsInt(Field(j, "popupID"), 1)) % 0x1_0000_0000_0000_0000 == 0)
    && |window.tabs| == |tabs| && forall k :: 0 <= k < |tabs| ==> TabFrom(c, tabs, k, window.tabs[k])
  }

  method LoadTabs(c: UuidCodec, array_: seq<Json>) returns (tabs: seq<Tab>)
    ensures |tabs| == |array_| && forall k :: 0 <= k < |array_| ==> TabFrom(c, array_, k, tabs[k])
  {
    hide LoadTab, TabReads, AsBool, Field;
    tabs := [];
    var hasSetASelectedTab := false;
    for k := 0 to |array_|
      invariant |tabs| == k && forall i :: 0 <= i < k ==> TabFrom(c, array_, i, tabs[i])
      invariant hasSetASelectedTab <==> exists i :: 0 <= i < k && AsBool(Field(array_[i], "selected"), false)
    {
      var tab := LoadTab(c, array_[k]);
      LoadTabIs(c, array_[k]);
      if tab.selected {
        if hasSetASelectedTab {
          tab := tab.(selected := false);
        }
        hasSetASelectedTab := true;
      }
      tabs := tabs + [tab];
    }
  }

  method LoadWindow(c: UuidCodec, array_: seq<Json>, i: nat, hasSetAMainWindow: bool) returns (window: Window)
    requires i < |array_| && (hasSetAMainWindow <==> exists k :: 0 <= k < i && WantsMain(array_[k]))
    ensures WindowFrom(c, array_, i, window)
  {
    var windowObj := array_[i];
    var type_ := if WantsMain(windowObj) then Main else Popup;
    if type_ == Main && hasSetAMainWindow {
      type_ := Popup;
    }
    var tabs := LoadTabs(c, AsArray(Field(windowObj, "tabs")));
    window := Window(type_, LoadState(windowObj), LoadRect(windowObj, -1), LoadPopupID(windowObj), tabs);
  }

  method LoadWindows(c: UuidCodec, array_: seq<Json>) returns (windows: seq<Window>, bounds: Rect)
    ensures |windows| == |array_| && forall i :: 0 <= i < |array_| ==> WindowFrom(c, array_, i, windows[i])
    ensures bounds == if array_ == [] then Rect(0, 0, 0, 0) else LoadRect(Field(array_[|array_| - 1], "emotePopup"), 0)
  {
    hide WindowFrom, LoadRect;
    windows := [];
    bounds := Rect(0, 0, 0, 0);
    var hasSetAMainWindow := false;
    for i := 0 to |array_|
      invariant |windows| == i && forall k :: 0 <= k < i ==> WindowFrom(c, array_, k, windows[k])
      invariant hasSetAMainWindow <==> exists k :: 0 <= k < i && WantsMain(array_[k])
      invariant bounds == if i == 0 then Rect(0, 0, 0, 0) else LoadRect(Field(array_[i - 1], "emotePopup"), 0)
    {
      var window := LoadWindow(c, array_, i, hasSetAMainWindow);
      if WantsMain(array_[i]) {
        hasSetAMainWindow := true;
      }
      bounds := LoadRect(Field(array_[i], "emotePopup"), 0);
      windows := windows + [window];
    }
  }

  /** From a parsed document; reading and parsing the file come before. */
  method LoadFromFile(c: UuidCodec, document: Json) returns (layout: Loaded)
    ensures layout.Failed? <==> !document.Object? || !Field(document, "windows").Array?
    ensures layout.Layout? ==>
              var array_ := AsArray(Field(document, "windows"));
              && |layout.windows| == |array_|
              && (forall i :: 0 <= i < |array_| ==> WindowFrom(c, array_, i, layout.windows[i]))
              && layout.emotePopupBounds ==
                 if array_ == [] then Rect(0, 0, 0, 0) else LoadRect(Field(array_[|array_| - 1], "emotePopup"), 0)
  {
    hide WindowFrom, LoadRect;
    if !document.Object? {
      return Failed("Root element is not an object");
    }
    var windowsEl := Field(document, "windows");
    if !windowsEl.Array? {
      return Failed("Root object does not contain a 'windows' array");
    }
    var windows, bounds := LoadWindows(c, AsArray(windowsEl));
    return Layout(windows, bounds);
  }

  ghost predicate AtMostOneSelected(tabs: seq<Tab>) {
    forall i, j :: 0 <= i < j < |tabs| ==> !(tabs[i].selected && tabs[j].selected)
  }

  ghost predicate AtMostOneMain(windows: seq<Window>) {
    forall i, j :: 0 <= i < j < |windows| ==> !(windows[i].type_ == Main && windows[j].type_ == Main)
  }

  /** Whatever the file says: at most one main window, and at most one selected tab per window. */
  lemma LoadedLayoutIsNormal(c: UuidCodec, array_: seq<Json>, windows: seq<Window>)
    requires |windows| == |array_| && forall i :: 0 <= i < |array_| ==> WindowFrom(c, array_, i, windows[i])
    ensures AtMostOneMain(windows)
    ensures forall i :: 0 <= i < |windows| ==> AtMostOneSelected(windows[i].tabs)
    ensures (exists i :: 0 <= i < |array_| && WantsMain(array_[i])) <==> exists i :: 0 <= i < |windows| && windows[i].type_ == Main
  {
    forall i, j | 0 <= i < j < |windows| ensures !(windows[i].type_ == Main && windows[j].type_ == Main) {
      assert WindowFrom(c, array_, i, windows[i]) && WindowFrom(c, array_, j, windows[j]);
    }
    forall i | 0 <= i < |windows| ensures AtMostOneSelected(windows[i].tabs) {
      assert WindowFrom(c, array_, i, windows[i]);
      var tabs := AsArray(Field(array_[i], "tabs"));
      forall k, l | 0 <= k < l < |tabs| ensures !(windows[i].tabs[k].selected && windows[i].tabs[l].selected) {
        assert TabFrom(c, tabs, k, windows[i].tabs[k]) && TabFrom(c, tabs, l, windows[i].tabs[l]);
      }
    }
    if i :| 0 <= i < |array_| && WantsMain(array_[i]) {
      var first := FirstMain(array_, i);
      assert WindowFrom(c, array_, first, windows[first]);
    }
    if i :| 0 <= i < |windows| && windows[i].type_ == Main {
      assert WindowFrom(c, array_, i, windows[i]);
    }
  }

  lemma FirstMain(array_: seq<Json>, i: nat) returns (first: nat)
    requires i < |array_| && WantsMain(array_[i])
    ensures first <= i && WantsMain(array_[first]) && forall h :: 0 <= h < first ==> !WantsMain(array_[h])
  {
    first := 0;
    while !WantsMain(array_[first])
      invariant first <= i && forall h :: 0 <= h < first ==> !WantsMain(array_[h])
      decreases i - first
    {
      first := first + 1;
    }
  }

  // ---------------------------------------------------------------------------------------------
  // Activating a channel
  // ---------------------------------------------------------------------------------------------

  /** Two per split, and one more for each split of the channel that has filters. */
  function Score(node: Node, name: string): nat {
    match node
    case Split(d, _, _) => 2 + if d.channelName == name && d.filters != [] then 1 else 0
    case Container(_, _, _, items) => ScoreAll(items, name)
  }

  function ScoreAll(items: seq<Node>, name: string): nat {
    if items == [] then 0 else Score(items[0], name) + ScoreAll(items[1..], name)
  }

  /** The splits of a tree, left to right. */
  function Leaves(node: Node): seq<SplitDescriptor> {
    match node
    case Split(d, _, _) => [d]
    case Container(_, _, _, items) => LeavesOfAll(items)
  }

  function LeavesOfAll(items: seq<Node>): seq<SplitDescriptor> {
    if items == [] then [] else Leaves(items[0]) + LeavesOfAll(items[1..])
  }

  /** Where the splits of the channel are that have filters. */
  ghost function Filtered(leaves: seq<SplitDescriptor>, name: string): set<int> {
    set i | 0 <= i < |leaves| && leaves[i].channelName == name && leaves[i].filters != []
  }

  lemma FilteredLast(leaves: seq<SplitDescriptor>, d: SplitDescriptor, name: string)
    ensures |Filtered(leaves + [d], name)|
            == |Filtered(leaves, name)| + if d.channelName == name && d.filters != [] then 1 else 0
  {
    var last := if d.channelName == name && d.filters != [] then {|leaves|} else {};
    assert Filtered(leaves + [d], name) == Filtered(leaves, name) + last;
  }

  lemma {:induction false} FilteredConcat(a: seq<SplitDescriptor>, b: seq<SplitDescriptor>, name: string)
    ensures |Filtered(a + b, name)| == |Filtered(a, name)| + |Filtered(b, name)|
    decreases |b|
  {
    if b == [] {
      assert a + b == a && Filtered(b, name) == {};
    } else {
      var front, d := b[..|b| - 1], b[|b| - 1];
      FilteredConcat(a, front, name);
      FilteredLast(a + front, d, name);
      FilteredLast(front, d, name);
      assert b == front + [d] && a + b == a + front + [d];
      hide Filtered;
    }
  }

  lemma {:induction false} ScoreIs(node: Node, name: string)
    ensures Score(node, name) == 2 * |Leaves(node)| + |Filtered(Leaves(node), name)|
    ensures HasChannel(node, name) <==> exists d :: d in Leaves(node) && d.channelName == name
    decreases node
  {
    match node {
      case Split(d, _, _) =>
        assert Filtered([d], name) == if d.channelName == name && d.filters != [] then {0} else {};
      case Container(_, _, _, items) => ScoreAllIs(items, name);
    }
  }

  lemma {:induction false} ScoreAllIs(items: seq<Node>, name: string)
    ensures ScoreAll(items, name) == 2 * |LeavesOfAll(items)| + |Filtered(LeavesOfAll(items), name)|
    ensures (exists i :: 0 <= i < |items| && HasChannel(items[i], name))
            <==> exists d :: d in LeavesOfAll(items) && d.channelName == name
    decreases items
  {
    if items == [] {
      assert Filtered([], name) == {};
    } else {
      ScoreIs(items[0], name);
      ScoreAllIs(items[1..], name);
      FilteredConcat(Leaves(items[0]), LeavesOfAll(items[1..]), name);
    }
  }

  predicate HasChannel(node: Node, name: string) {
    match node
    case Split(d, _, _) => d.channelName == name
    case Container(_, _, _, items) => exists i :: 0 <= i < |items| && HasChannel(items[i], name)
  }

  /** The recursive visitor that scores one tab. */
  class Visitor {
    const spec: string
    var score: nat
    var hasChannel: bool

    constructor (name: string)
      ensures spec == name && score == 0 && !hasChannel
    {
      spec, score, hasChannel := name, 0, false;
    }

    method Visit(node: Node)
      modifies this
      ensures score == old(score) + Score(node, spec)
      ensures hasChannel == (old(hasChannel) || HasChannel(node, spec))
      ensures score == old(score) + 2 * |Leaves(node)| + |Filtered(Leaves(node), spec)|
      ensures hasChannel <==> old(hasChannel) || exists d :: d in Leaves(node) && d.channelName == spec
      ensures node.Split? ==>
                score - old(score) == if node.split.channelName == spec && node.split.filters != [] then 3 else 2
      decreases node
    {
      ScoreIs(node, spec);
      hide Leaves, Filtered;
      match node {
        case Split(d, _, _) =>
          score := score + 2;
          if d.channelName == spec {
            hasChannel := true;
            if d.filters != [] {
              score := score + 1;
            }
          }
        case Container(_, _, _, items) =>
          for i := 0 to |items|
            invariant score + ScoreAll(items[i..], spec) == old(score) + ScoreAll(items, spec)
            invariant hasChannel == (old(hasChannel) || exists k :: 0 <= k < i && HasChannel(items[k], spec))
          {
            assert items[i..][1..] == items[i + 1..];
            Visit(items[i]);
          }
      }
    }
  }

  predicate Holds(tab: Tab, name: string) {
    tab.rootNode.Some? && HasChannel(tab.rootNode.value, name)
  }

  function TabScore(tab: Tab, name: string): nat {
    if tab.rootNode.Some? then Score(tab.rootNode.value, name) else 0
  }

  /** The first tab with the lowest score among the first `n` that hold the channel. */
  ghost predicate IsBest(tabs: seq<Tab>, n: nat, name: string, b: nat) {
    && b < n <= |tabs| && Holds(tabs[b], name)
    && forall k :: 0 <= k < n && Holds(tabs[k], name) ==>
         TabScore(tabs[b], name) <= TabScore(tabs[k], name) && (k < b ==> TabScore(tabs[b], name) < TabScore(tabs[k], name))
  }

  function TabLeaves(tab: Tab): seq<SplitDescriptor> {
    if tab.rootNode.Some? then Leaves(tab.rootNode.value) else []
  }

  /**
   The preference the score stands for: a tab with a single split of the channel goes before all tabs
   with several splits, and among those with a single one a tab without filters goes first.
   */
  lemma SingleSplitIsPreferred(tabs: seq<Tab>, name: string, b: nat, k: nat)
    requires IsBest(tabs, |tabs|, name, b) && k < |tabs| && Holds(tabs[k], name) && |TabLeaves(tabs[k])| == 1
    ensures |TabLeaves(tabs[b])| == 1
    ensures TabLeaves(tabs[b])[0].channelName == TabLeaves(tabs[k])[0].channelName == name
    ensures TabLeaves(tabs[b])[0].filters != [] ==> TabLeaves(tabs[k])[0].filters != []
    ensures (TabLeaves(tabs[b])[0].filters == []) == (TabLeaves(tabs[k])[0].filters == []) ==> b <= k
  {
    var best, other := TabLeaves(tabs[b]), TabLeaves(tabs[k]);
    ScoreIs(tabs[b].rootNode.value, name);
    ScoreIs(tabs[k].rootNode.value, name);
    hide Leaves;
    assert Filtered(other, name) == if other[0].channelName == name && other[0].filters != [] then {0} else {};
    if |best| == 1 {
      assert Filtered(best, name) == if best[0].channelName == name && best[0].filters != [] then {0} else {};
    }
  }

  /** The tabs with exactly the one at `b` selected. */
  function SelectOnly(tabs: seq<Tab>, b: int): (r: seq<Tab>)
    ensures |r| == |tabs|
  {
    seq(|tabs|, i requires 0 <= i < |tabs| => tabs[i].(selected := i == b))
  }

  function NewTab(name: string): Tab {
    Tab("", true, true, Some(Split(SplitDescriptor("twitch", name, -1, false, None, []), 1.0, 1.0)))
  }

  function NewWindow(name: string): Window {
    Window(Main, Normal, Rect(-1, -1, -1, -1), None, [NewTab(name)])
  }

  predicate IsFirstMain(windows: seq<Window>, m: nat) {
    m < |windows| && windows[m].type_ == Main && forall i :: 0 <= i < m ==> windows[i].type_ != Main
  }

  predicate CanActivate(isTwitch: bool, name: string) {
    isTwitch && !("/" <= name) && !("$" <= name)
  }

  /** The main window's tabs after activating a channel. */
  ghost predicate Activated(tabs: seq<Tab>, after: seq<Tab>, name: string) {
    if exists b: nat :: IsBest(tabs, |tabs|, name, b)
    then exists b: nat :: IsBest(tabs, |tabs|, name, b) && after == SelectOnly(tabs, b)
    else (forall k :: 0 <= k < |tabs| ==> !Holds(tabs[k], name)) && after == SelectOnly(tabs, -1) + [NewTab(name)]
  }

  class WindowLayout {
    var windows: seq<Window>

    constructor (windows: seq<Window>)
      ensures this.windows == windows
    {
      this.windows := windows;
    }

    method FindMain() returns (m: nat)
      ensures m <= |windows| && (m < |windows| ==> IsFirstMain(windows, m))
      ensures m == |windows| ==> forall i :: 0 <= i < |windows| ==> windows[i].type_ != Main
    {
      m := 0;
      while m < |windows| && windows[m].type_ != Main
        invariant m <= |windows| && forall i :: 0 <= i < m ==> windows[i].type_ != Main
      {
        m := m + 1;
      }
    }

    method ActivateOrAddChannel(isTwitch: bool, name: string)
      modifies this
      ensures !CanActivate(isTwitch, name) ==> windows == old(windows)
      ensures CanActivate(isTwitch, name) <==> isTwitch && (name == "" || name[0] !in "/$")
      ensures CanActivate(isTwitch, name) && (forall i :: 0 <= i < |old(windows)| ==> old(windows)[i].type_ != Main) ==>
                && windows == old(windows) + [NewWindow(name)]
                && windows[|old(windows)|].type_ == Main && windows[|old(windows)|].geometry == Rect(-1, -1, -1, -1)
                && Activated([], windows[|old(windows)|].tabs, name)
      ensures forall m: nat :: CanActivate(isTwitch, name) && IsFirstMain(old(windows), m) ==>
                && |windows| == |old(windows)|
                && windows == old(windows)[m := old(windows)[m].(tabs := windows[m].tabs)]
                && Activated(old(windows)[m].tabs, windows[m].tabs, name)
    {
      if !isTwitch || (|name| > 0 && (name[0] == '/' || name[0] == '$')) {
        return;
      }
      var m := FindMain();
      if m == |windows| {
        windows := windows + [NewWindow(name)];
        return;
      }
      var tabs := windows[m].tabs;
      var bestTab: Option<nat> := None;
      var bestTabScore: nat := 0;
      var updated: seq<Tab> := [];
      for i := 0 to |tabs|
        invariant windows == old(windows)
        invariant |updated| == i && forall k :: 0 <= k < i ==> updated[k] == tabs[k].(selected := false)
        invariant bestTab.None? ==> forall k :: 0 <= k < i ==> !Holds(tabs[k], name)
        invariant bestTab.Some? ==> IsBest(tabs, i, name, bestTab.value) && bestTabScore == TabScore(tabs[bestTab.value], name)
      {
        updated := updated + [tabs[i].(selected := false)];
        if tabs[i].rootNode.Some? {
          var visitor := new Visitor(name);
          visitor.Visit(tabs[i].rootNode.value);
          if visitor.hasChannel && (bestTab.None? || visitor.score < bestTabScore) {
            bestTab := Some(i);
            bestTabScore := visitor.score;
          }
        }
      }
      if bestTab.Some? {
        updated := updated[bestTab.value := updated[bestTab.value].(selected := true)];
        assert updated == SelectOnly(tabs, bestTab.value);
      } else {
        assert updated == SelectOnly(tabs, -1);
        updated := updated + [NewTab(name)];
      }
      windows := windows[m := windows[m].(tabs := updated)];
    }
  }

  /**
   After activation exactly one tab of the main window is selected, it holds the channel, and nothing
   else about the tabs that were there has changed.
   */
  lemma ActivatedTabIsUnique(tabs: seq<Tab>, after: seq<Tab>, name: string)
    requires Activated(tabs, after, name)
    ensures exists s :: 0 <= s < |after| && after[s].selected && Holds(after[s], name)
                        && forall k :: 0 <= k < |after| && after[k].selected ==> k == s
    ensures |tabs| <= |after| <= |tabs| + 1
    ensures forall k :: 0 <= k < |tabs| ==> after[k].(selected := tabs[k].selected) == tabs[k]
    ensures |after| == |tabs| + 1 <==> forall k :: 0 <= k < |tabs| ==> !Holds(tabs[k], name)
    ensures |after| == |tabs| + 1 ==> TabLeaves(after[|tabs|]) == [SplitDescriptor("twitch", name, -1, false, None, [])]
  {
    if exists b: nat :: IsBest(tabs, |tabs|, name, b) {
      var b: nat :| IsBest(tabs, |tabs|, name, b) && after == SelectOnly(tabs, b);
      assert after[b].selected && Holds(after[b], name);
    } else {
      assert after[|tabs|] == NewTab(name);
      assert Holds(after[|tabs|], name);
    }
  }
}
