/** `NodeParser` of patch_bot/jhtmlnodeparser.py: the tree builder. The
    tokenizer it inherits from (Python's `html.parser.HTMLParser`) is not
    modelled; it turns markup into the events below and calls one handler per
    event. The builder keeps a stack `orphans` of nodes that are open and not
    yet attached to a parent, seeded with a synthetic node tagged `root`. */
module HtmlNodeParser {
  import opened Results
  import opened Text
  import opened HtmlNode

  /** What the tokenizer reports: `handle_starttag`, `handle_endtag` and `handle_data`. */
  datatype Event =
    | StartTag(tag: string, attrs: seq<(string, string)>)
    | EndTag(tag: string)
    | Data(text: string)

  // ---------------------------------------------------------------------------
  // The handlers as functions of the stack
  // ---------------------------------------------------------------------------

  /** `handle_starttag`: push a new node. It is childless, has empty data,
      and every entry below it, children included, stays as it was. */
  function OnStartTag(stack: seq<Node>, tag: string, attrs: seq<(string, string)>): (r: seq<Node>)
    ensures |r| == |stack| + 1 && r[..|stack|] == stack
    ensures r[|stack|].tag == tag && r[|stack|].children == [] && r[|stack|].data == ""
  {
    stack + [NewNode(tag, attrs)]
  }

  /** Where the popping loop of `handle_endtag` stops when it pops the entry
      at `k` first: at the first entry from `k` down whose tag is `tag`, or at
      the bottom entry 0 when none above it has that tag. */
  function ScanDown(stack: seq<Node>, tag: string, k: nat): (m: nat)
    requires k < |stack|
    ensures m <= k
    ensures m > 0 ==> stack[m].tag == tag
    ensures forall j :: m < j <= k ==> stack[j].tag != tag
    decreases k
  {
    if stack[k].tag == tag || k == 0 then k else ScanDown(stack, tag, k - 1)
  }

  /** The index of the entry that `handle_endtag` closes: the topmost entry
      above the bottom with this tag, or 0 when there is none. */
  function MatchIndex(stack: seq<Node>, tag: string): (m: nat)
    requires stack != []
    ensures m < |stack|
    ensures m > 0 ==> stack[m].tag == tag
    ensures forall j :: m < j < |stack| ==> stack[j].tag != tag
  {
    ScanDown(stack, tag, |stack| - 1)
  }

  /** `s` in pop order: last element first. */
  function Reversed(s: seq<Node>): (r: seq<Node>)
    ensures |r| == |s|
    ensures forall i :: 0 <= i < |s| ==> r[i] == s[|s| - 1 - i]
  {
    if s == [] then [] else [s[|s| - 1]] + Reversed(s[..|s| - 1])
  }

  /** The closed node: the entry at `MatchIndex` with the entries popped above
      it appended to its children, in the order they were popped. */
  function ClosedNode(stack: seq<Node>, tag: string): Node
    requires stack != []
  {
    var m := MatchIndex(stack, tag);
    AppendAll(stack[m], Reversed(stack[m + 1..]))
  }

  /** `handle_endtag`: the closed node becomes the last child of the entry
      below it, which is the new top. When the loop had to pop the bottom
      entry, `self.orphans[-1]` (or, on an empty stack, `pop()`) raises
      IndexError. */
  function OnEndTag(stack: seq<Node>, tag: string): (r: Result<seq<Node>>)
    ensures stack == [] ==> r.Err?
    ensures r.Ok? ==> && 0 < |r.value| < |stack|
                      && r.value[..|r.value| - 1] == stack[..|r.value| - 1]
                      && stack[|r.value|].tag == tag
                      && forall j :: |r.value| < j < |stack| ==> stack[j].tag != tag
  {
    if stack == [] then Err(IndexError)
    else
      var m := MatchIndex(stack, tag);
      if m == 0 then Err(IndexError)
      else Ok(stack[..m - 1] + [Append(stack[m - 1], ClosedNode(stack, tag))])
  }

  /** `handle_data`: non-empty raw text replaces the top node's data with the
      text stripped of surrounding whitespace; empty text changes nothing. */
  function OnData(stack: seq<Node>, text: string): (r: Result<seq<Node>>)
    ensures r.Err? <==> text != "" && stack == []
    ensures r.Ok? ==> |r.value| == |stack|
    ensures r.Ok? && stack != [] ==> r.value[..|stack| - 1] == stack[..|stack| - 1]
  {
    if text == "" then Ok(stack)
    else if stack == [] then Err(IndexError)
    else Ok(stack[..|stack| - 1] + [stack[|stack| - 1].(data := Strip(text))])
  }

  /** One event: the bottom entry keeps its tag and attributes whenever the
      handler returns. */
  function Apply(stack: seq<Node>, ev: Event): (r: Result<seq<Node>>)
    ensures r.Ok? && stack != [] ==>
      r.value != [] && r.value[0].tag == stack[0].tag && r.value[0].attributes == stack[0].attributes
  {
    match ev
    case StartTag(tag, attrs) => Ok(OnStartTag(stack, tag, attrs))
    case EndTag(tag) => OnEndTag(stack, tag)
    case Data(text) => OnData(stack, text)
  }

  /** Handling the events in order; the first exception ends the run. */
  function Run(stack: seq<Node>, evs: seq<Event>): (r: Result<seq<Node>>)
    ensures r.Ok? && stack != [] ==>
      r.value != [] && r.value[0].tag == stack[0].tag && r.value[0].attributes == stack[0].attributes
    decreases |evs|
  {
    if evs == [] then Ok(stack)
    else
      match Apply(stack, evs[0])
      case Ok(next) => Run(next, evs[1..])
      case Err(e) => Err(e)
  }

  // ---------------------------------------------------------------------------
  // What an end tag does
  // ---------------------------------------------------------------------------

  /** An end tag raises exactly when no entry above the bottom has its tag. */
  lemma EndTagFails(stack: seq<Node>, tag: string)
    requires stack != []
    ensures OnEndTag(stack, tag).Err? <==> forall j :: 1 <= j < |stack| ==> stack[j].tag != tag
  {
  }

  /** An end tag closes the topmost entry `m` above the bottom with its tag:
      the entries above `m`, in pop order, become the last children of `m`,
      `m` becomes the last child of the entry below it, and the stack ends
      there. */
  lemma EndTagClosesTopmost(stack: seq<Node>, tag: string, m: nat)
    requires 1 <= m < |stack| && stack[m].tag == tag
    requires forall j :: m < j < |stack| ==> stack[j].tag != tag
    ensures OnEndTag(stack, tag) == Ok(stack[..m - 1] + [Append(stack[m - 1], AppendAll(stack[m], Reversed(stack[m + 1..])))])
  {
  }

  /** The orphans go after the closed node's own children, most recently
      opened first, each with its own subtree. */
  lemma OrphansInPopOrder(stack: seq<Node>, tag: string)
    requires stack != []
    ensures var m := MatchIndex(stack, tag);
      var own := stack[m].children;
      var c := ClosedNode(stack, tag);
      && |c.children| == |own| + |stack| - 1 - m
      && c.children[..|own|] == own
      && (forall i :: |own| <= i < |c.children| ==> c.children[i] == stack[|stack| - 1 - (i - |own|)])
      && c == stack[m].(children := c.children)
  {
  }

  /** For balanced input the end tag matches the top entry, which simply
      becomes the last child of the entry below it. */
  lemma EndTagOnMatchingTop(stack: seq<Node>, tag: string)
    requires |stack| >= 2 && stack[|stack| - 1].tag == tag
    ensures OnEndTag(stack, tag) == Ok(stack[..|stack| - 2] + [Append(stack[|stack| - 2], stack[|stack| - 1])])
  {
    var n := |stack|;
    var top := stack[n - 1];
    assert MatchIndex(stack, tag) == n - 1;
    assert stack[n..] == [];
    assert Reversed([]) == [];
    assert top.children + [] == top.children;
    assert ClosedNode(stack, tag) == top;
  }

  lemma ClosedNodeAt(stack: seq<Node>, tag: string, m: nat)
    requires stack != [] && m == MatchIndex(stack, tag)
    ensures ClosedNode(stack, tag) == AppendAll(stack[m], Reversed(stack[m + 1..]))
  {
  }

  /** Appending the children one at a time, as the `for` loop of `handle_endtag` does. */
  lemma AppendAllPrefix(n: Node, cs: seq<Node>, i: nat)
    requires i < |cs|
    ensures AppendAll(n, cs[..i + 1]) == Append(AppendAll(n, cs[..i]), cs[i])
  {
    assert n.children + cs[..i + 1] == n.children + cs[..i] + [cs[i]];
  }

  /** Popping one more entry puts it at the end of the popped list. */
  lemma ReversedPrepend(s: seq<Node>, k: nat)
    requires k < |s|
    ensures Reversed(s[k..]) == Reversed(s[k + 1..]) + [s[k]]
  {
    var a := Reversed(s[k..]);
    var b := Reversed(s[k + 1..]) + [s[k]];
    assert |a| == |b|;
    forall i | 0 <= i < |a| ensures a[i] == b[i] {
      if i < |a| - 1 {
        assert a[i] == s[|s| - 1 - i];
      }
    }
  }

  /** What `handle_endtag` arrives at once it has built the closed node:
      with nothing left below it the call raises, otherwise the closed node
      becomes the last child of the entry below it, and no node is lost. */
  lemma EndTagOutcome(stack: seq<Node>, tag: string, m: nat, below: seq<Node>)
    requires stack != [] && m == MatchIndex(stack, tag) && below == stack[..m]
    ensures below == [] <==> forall j :: 1 <= j < |stack| ==> stack[j].tag != tag
    ensures below == [] ==> OnEndTag(stack, tag) == Err(IndexError)
    ensures below != [] ==>
      var next := below[..|below| - 1] + [Append(below[|below| - 1], ClosedNode(stack, tag))];
      && OnEndTag(stack, tag) == Ok(next)
      && ForestLabels(next) == ForestLabels(stack)
      && next[0].tag == stack[0].tag && next[0].attributes == stack[0].attributes
  {
    if m > 0 {
      assert below[..m - 1] == stack[..m - 1] && below[m - 1] == stack[m - 1];
      EndTagKeepsLabels(stack, tag);
    }
  }

  /** Text touches the top entry's `data` only: empty text changes nothing,
      other text sets `data` to the stripped text, and every other field and
      every other entry stay as they were. */
  lemma DataTouchesTopOnly(stack: seq<Node>, text: string)
    requires stack != []
    ensures OnData(stack, text).Ok?
    ensures text == "" ==> OnData(stack, text).value == stack
    ensures text != "" ==>
      var s' := OnData(stack, text).value;
      && |s'| == |stack|
      && s'[..|stack| - 1] == stack[..|stack| - 1]
      && s'[|stack| - 1] == stack[|stack| - 1].(data := Strip(text))
  {
  }

  /** Later text replaces earlier text: two text events leave the data of the second. */
  lemma DataLastWins(stack: seq<Node>, first: string, second: string)
    requires stack != [] && second != ""
    ensures OnData(stack, first).Ok?
    ensures OnData(OnData(stack, first).value, second) == OnData(stack, second)
  {
    var n := |stack|;
    var s1 := OnData(stack, first).value;
    assert s1[..n - 1] == stack[..n - 1];
  }

  /** Whitespace-only text still overwrites the top node's data, with ''. */
  lemma BlankDataClears(stack: seq<Node>, text: string)
    requires stack != [] && text != "" && AllSpace(text)
    ensures OnData(stack, text).Ok?
    ensures var s' := OnData(stack, text).value; |s'| == |stack| && s'[|s'| - 1].data == ""
  {
    StripBlank(text);
  }

  // ---------------------------------------------------------------------------
  // Nothing is lost and nothing is duplicated
  // ---------------------------------------------------------------------------

  /** What identifies a node for the builder: its tag and attributes, the
      fields that never change once it is created. */
  type Label = (string, Attributes)

  function LabelOf(n: Node): Label
  {
    (n.tag, n.attributes)
  }

  function LabelsOf(ns: seq<Node>): multiset<Label>
  {
    if ns == [] then multiset{} else multiset{LabelOf(ns[0])} + LabelsOf(ns[1..])
  }

  /** The labels of every node held by the stack: its entries and all their descendants. */
  function ForestLabels(stack: seq<Node>): multiset<Label>
  {
    LabelsOf(PreOrderForest(stack))
  }

  lemma {:induction false} LabelsOfAppend(a: seq<Node>, b: seq<Node>)
    ensures LabelsOf(a + b) == LabelsOf(a) + LabelsOf(b)
  {
    if a != [] {
      assert (a + b)[0] == a[0];
      assert (a + b)[1..] == a[1..] + b;
      LabelsOfAppend(a[1..], b);
    } else {
      assert a + b == b;
    }
  }

  lemma ForestLabelsAppend(a: seq<Node>, b: seq<Node>)
    ensures ForestLabels(a + b) == ForestLabels(a) + ForestLabels(b)
  {
    PreOrderForestAppend(a, b);
    LabelsOfAppend(PreOrderForest(a), PreOrderForest(b));
  }

  lemma ForestLabelsSingle(n: Node)
    ensures ForestLabels([n]) == multiset{LabelOf(n)} + ForestLabels(n.children)
  {
    assert [n][..0] == [];
    assert PreOrderForest([n]) == PreOrder(n);
    LabelsOfAppend([n], PreOrderForest(n.children));
  }

  /** Appending children adds exactly their labels; the node's other fields do not matter. */
  lemma ReplacedNodeLabels(n: Node, n': Node, cs: seq<Node>)
    requires LabelOf(n') == LabelOf(n) && n'.children == n.children + cs
    ensures ForestLabels([n']) == ForestLabels([n]) + ForestLabels(cs)
  {
    ForestLabelsSingle(n);
    ForestLabelsSingle(n');
    ForestLabelsAppend(n.children, cs);
  }

  lemma {:induction false} ForestLabelsReversed(s: seq<Node>)
    ensures ForestLabels(Reversed(s)) == ForestLabels(s)
  {
    if s != [] {
      var front := s[..|s| - 1];
      var last := s[|s| - 1];
      ForestLabelsReversed(front);
      ForestLabelsAppend([last], Reversed(front));
      ForestLabelsAppend(front, [last]);
      assert front + [last] == s;
    }
  }

  lemma SplitAround(s: seq<Node>, m: nat)
    requires 1 <= m < |s|
    ensures s == (s[..m - 1] + [s[m - 1]]) + ([s[m]] + s[m + 1..])
  {
    assert s == s[..m - 1] + s[m - 1..];
    assert s[m - 1..] == [s[m - 1]] + ([s[m]] + s[m + 1..]);
  }

  /** Closing a node moves nodes between the stack and children lists and
      never loses or duplicates one. */
  lemma EndTagKeepsLabels(stack: seq<Node>, tag: string)
    requires OnEndTag(stack, tag).Ok?
    ensures ForestLabels(OnEndTag(stack, tag).value) == ForestLabels(stack)
  {
    var m := MatchIndex(stack, tag);
    var below := stack[..m - 1];
    var parent := stack[m - 1];
    var orphans := stack[m + 1..];
    var closed := ClosedNode(stack, tag);
    var parent' := Append(parent, closed);
    assert OnEndTag(stack, tag).value == below + [parent'];
    SplitAround(stack, m);
    ForestLabelsAppend(below + [parent], [stack[m]] + orphans);
    ForestLabelsAppend(below, [parent]);
    ForestLabelsAppend([stack[m]], orphans);
    ForestLabelsAppend(below, [parent']);
    ForestLabelsReversed(orphans);
    ReplacedNodeLabels(stack[m], closed, Reversed(orphans));
    ReplacedNodeLabels(parent, parent', [closed]);
    calc {
      ForestLabels(below + [parent']);
      ForestLabels(below) + ForestLabels([parent']);
      ForestLabels(below) + (ForestLabels([parent]) + ForestLabels([closed]));
      ForestLabels(below) + (ForestLabels([parent]) + (ForestLabels([stack[m]]) + ForestLabels(orphans)));
      (ForestLabels(below) + ForestLabels([parent])) + (ForestLabels([stack[m]]) + ForestLabels(orphans));
      ForestLabels(stack);
    }
  }

  /** The labels a run of events creates: one per start tag. */
  function StartedLabels(evs: seq<Event>): multiset<Label>
  {
    if evs == [] then multiset{}
    else
      (match evs[0]
       case StartTag(tag, attrs) => multiset{LabelOf(NewNode(tag, attrs))}
       case _ => multiset{})
      + StartedLabels(evs[1..])
  }

  lemma StartTagLabels(stack: seq<Node>, tag: string, attrs: seq<(string, string)>)
    ensures ForestLabels(OnStartTag(stack, tag, attrs)) == ForestLabels(stack) + multiset{LabelOf(NewNode(tag, attrs))}
  {
    var n := NewNode(tag, attrs);
    ForestLabelsAppend(stack, [n]);
    ForestLabelsSingle(n);
    assert ForestLabels(n.children) == multiset{};
  }

  lemma DataLabels(stack: seq<Node>, text: string)
    requires OnData(stack, text).Ok?
    ensures ForestLabels(OnData(stack, text).value) == ForestLabels(stack)
  {
    if text != "" {
      var pre := stack[..|stack| - 1];
      var top := stack[|stack| - 1];
      var top' := top.(data := Strip(text));
      assert stack == pre + [top];
      assert OnData(stack, text).value == pre + [top'];
      ForestLabelsAppend(pre, [top]);
      ForestLabelsAppend(pre, [top']);
      ForestLabelsSingle(top);
      ForestLabelsSingle(top');
    }
  }

  /** An event adds the label of the node it opens, if any, and keeps every other one. */
  lemma ApplyLabels(stack: seq<Node>, ev: Event)
    requires Apply(stack, ev).Ok?
    ensures ForestLabels(Apply(stack, ev).value) == ForestLabels(stack) + StartedLabels([ev])
  {
    assert [ev][1..] == [];
    match ev
    case StartTag(tag, attrs) => StartTagLabels(stack, tag, attrs);
    case EndTag(tag) => EndTagKeepsLabels(stack, tag);
    case Data(text) => DataLabels(stack, text);
  }

  /** After any run that does not raise, the stack holds the nodes it started
      with plus exactly one node per start tag, each once. */
  lemma {:induction false} RunLabels(stack: seq<Node>, evs: seq<Event>)
    requires Run(stack, evs).Ok?
    ensures ForestLabels(Run(stack, evs).value) == ForestLabels(stack) + StartedLabels(evs)
    decreases |evs|
  {
    if evs != [] {
      var next := Apply(stack, evs[0]).value;
      assert Run(stack, evs) == Run(next, evs[1..]);
      ApplyLabels(stack, evs[0]);
      RunLabels(next, evs[1..]);
      StartedLabelsCons(evs);
    }
  }

  lemma StartedLabelsCons(evs: seq<Event>)
    requires evs != []
    ensures StartedLabels(evs) == StartedLabels([evs[0]]) + StartedLabels(evs[1..])
  {
    assert [evs[0]][1..] == [];
  }

  // ---------------------------------------------------------------------------
  // Balanced input reproduces the document
  // ---------------------------------------------------------------------------

  lemma {:induction false} RunAppend(stack: seq<Node>, a: seq<Event>, b: seq<Event>)
    ensures Run(stack, a + b) == match Run(stack, a) case Ok(s) => Run(s, b) case Err(e) => Err(e)
    decreases |a|
  {
    if a == [] {
      assert a + b == b;
    } else {
      assert (a + b)[0] == a[0];
      assert (a + b)[1..] == a[1..] + b;
      match Apply(stack, a[0])
      case Ok(next) => RunAppend(next, a[1..], b);
      case Err(_) =>
    }
  }

  lemma RunOne(stack: seq<Node>, ev: Event)
    ensures Run(stack, [ev]) == Apply(stack, ev)
  {
    assert [ev][1..] == [];
  }

  /** A run stops at the first event whose handler raises. */
  lemma RunStopsAt(stack: seq<Node>, evs: seq<Event>, i: nat)
    requires i < |evs| && Run(stack, evs[..i]).Ok?
    requires Apply(Run(stack, evs[..i]).value, evs[i]).Err?
    ensures Run(stack, evs) == Apply(Run(stack, evs[..i]).value, evs[i])
  {
    assert evs[..i + 1] == evs[..i] + [evs[i]];
    RunAppend(stack, evs[..i], [evs[i]]);
    RunOne(Run(stack, evs[..i]).value, evs[i]);
    assert evs == evs[..i + 1] + evs[i + 1..];
    RunAppend(stack, evs[..i + 1], evs[i + 1..]);
  }

  /** One more event, handled on the stack the run so far has left. */
  lemma RunStep(stack: seq<Node>, evs: seq<Event>, i: nat, s: seq<Node>)
    requires i < |evs| && Run(stack, evs[..i]) == Ok(s)
    ensures Run(stack, evs[..i + 1]) == Apply(s, evs[i])
  {
    assert evs[..i + 1] == evs[..i] + [evs[i]];
    RunAppend(stack, evs[..i], [evs[i]]);
    RunOne(s, evs[i]);
  }

  /** The run from `stack` stops with IndexError at an end tag whose closing
      popped the bottom entry, and `closed` is the node that closing built. */
  ghost predicate StopsAtEndTag(stack: seq<Node>, evs: seq<Event>, closed: Node)
  {
    exists i, s, t :: && 0 <= i < |evs| && evs[i] == EndTag(t)
                      && Run(stack, evs[..i]) == Ok(s)
                      && s != [] && OnEndTag(s, t).Err? && closed == ClosedNode(s, t)
  }

  lemma StopAtEndTag(stack: seq<Node>, evs: seq<Event>, i: nat, s: seq<Node>, t: string)
    requires i < |evs| && evs[i] == EndTag(t) && Run(stack, evs[..i]) == Ok(s)
    requires s != [] && OnEndTag(s, t).Err?
    ensures Run(stack, evs) == Err(IndexError)
    ensures StopsAtEndTag(stack, evs, ClosedNode(s, t))
  {
    RunStopsAt(stack, evs, i);
  }

  /** A well-nested document: each element is a start tag, a run of text
      chunks and child elements in any order, and the matching end tag. */
  datatype Item = Txt(text: string) | Kid(element: Element)
  datatype Element = Element(tag: string, attrs: seq<(string, string)>, items: seq<Item>)

  function ElementEvents(e: Element): seq<Event>
    decreases e, 0
  {
    [StartTag(e.tag, e.attrs)] + ItemsEvents(e.items) + [EndTag(e.tag)]
  }

  function ItemEvents(it: Item): seq<Event>
    decreases it, 0
  {
    match it
    case Txt(s) => [Data(s)]
    case Kid(e) => ElementEvents(e)
  }

  function ItemsEvents(items: seq<Item>): seq<Event>
    decreases items, 0
  {
    if items == [] then [] else ItemEvents(items[0]) + ItemsEvents(items[1..])
  }

  /** The last non-empty text chunk of a run, if any. */
  function LastText(items: seq<Item>): (r: Option<string>)
    ensures r.Some? ==> r.value != "" && exists i :: 0 <= i < |items| && items[i] == Txt(r.value) &&
                                                  forall j :: i < j < |items| && items[j].Txt? ==> items[j].text == ""
    ensures r.None? <==> forall i :: 0 <= i < |items| && items[i].Txt? ==> items[i].text == ""
  {
    if items == [] then None
    else
      match items[|items| - 1]
      case Txt(s) => if s != "" then Some(s) else LastText(items[..|items| - 1])
      case Kid(_) => LastText(items[..|items| - 1])
  }

  /** The data a node holds after a run of items, starting from `d`: the
      stripped last non-empty text chunk, or `d` when there is none. */
  function DataAfter(items: seq<Item>, d: string): string
  {
    match LastText(items) case Some(s) => Strip(s) case None => d
  }

  /** The node of a child element, or nothing for a text chunk. */
  function ItemNodes(it: Item): seq<Node>
    decreases it, 0
  {
    match it
    case Txt(_) => []
    case Kid(e) => [ElementNode(e)]
  }

  /** The nodes of the child elements of a run, in order. */
  function KidNodes(items: seq<Item>): seq<Node>
    decreases items, 0
  {
    if items == [] then [] else ItemNodes(items[0]) + KidNodes(items[1..])
  }

  /** The node an element should become: its children are its child
      elements in document order, and its data is its last non-empty text
      chunk, stripped, or `''` without one. */
  function ElementNode(e: Element): Node
    decreases e, 0
  {
    NewNode(e.tag, e.attrs).(data := DataAfter(e.items, ""), children := KidNodes(e.items))
  }

  /** What one item does to the node it lands on. */
  function AddItem(n: Node, it: Item): Node
  {
    match it
    case Txt(t) => if t == "" then n else n.(data := Strip(t))
    case Kid(e) => Append(n, ElementNode(e))
  }

  lemma LastTextCons(it: Item, rest: seq<Item>)
    ensures LastText([it] + rest) ==
      match LastText(rest)
      case Some(s) => Some(s)
      case None => (match it case Txt(s) => if s != "" then Some(s) else None case Kid(_) => None)
    decreases |rest|
  {
    var all := [it] + rest;
    if rest == [] {
      assert all[..0] == [];
    } else {
      assert all[..|all| - 1] == [it] + rest[..|rest| - 1];
      assert all[|all| - 1] == rest[|rest| - 1];
      LastTextCons(it, rest[..|rest| - 1]);
    }
  }

  /** The events of one item, handled on any stack, change only the top entry, as `AddItem` says. */
  lemma {:induction false} ItemRun(stack: seq<Node>, it: Item)
    requires stack != []
    ensures Run(stack, ItemEvents(it)) == Ok(stack[..|stack| - 1] + [AddItem(stack[|stack| - 1], it)])
    decreases it, 1
  {
    match it
    case Txt(t) =>
      RunOne(stack, Data(t));
      if t == "" {
        assert stack == stack[..|stack| - 1] + [stack[|stack| - 1]];
      }
    case Kid(e) =>
      ElementRun(stack, e);
  }

  /** What a run of items does to a node: its first item, then the rest. */
  function AddItems(n: Node, items: seq<Item>): Node
  {
    n.(data := DataAfter(items, n.data), children := n.children + KidNodes(items))
  }

  lemma DataAfterCons(n: Node, it: Item, rest: seq<Item>)
    ensures DataAfter([it] + rest, n.data) == DataAfter(rest, AddItem(n, it).data)
  {
    LastTextCons(it, rest);
  }

  lemma KidNodesCons(it: Item, rest: seq<Item>)
    ensures KidNodes([it] + rest) == ItemNodes(it) + KidNodes(rest)
  {
    assert ([it] + rest)[0] == it && ([it] + rest)[1..] == rest;
  }

  lemma AddItemsCons(n: Node, it: Item, rest: seq<Item>)
    ensures AddItems(n, [it] + rest) == AddItems(AddItem(n, it), rest)
  {
    DataAfterCons(n, it, rest);
    KidNodesCons(it, rest);
    match it
    case Txt(t) => AddTextCons(n, t, rest);
    case Kid(e) => AddKidCons(n, e, rest);
  }

  lemma AddTextCons(n: Node, t: string, rest: seq<Item>)
    requires DataAfter([Txt(t)] + rest, n.data) == DataAfter(rest, AddItem(n, Txt(t)).data)
    requires KidNodes([Txt(t)] + rest) == KidNodes(rest)
    ensures AddItems(n, [Txt(t)] + rest) == AddItems(AddItem(n, Txt(t)), rest)
  {
    var m := AddItem(n, Txt(t));
    assert m.children == n.children && m.tag == n.tag && m.attributes == n.attributes;
  }

  lemma AddKidCons(n: Node, e: Element, rest: seq<Item>)
    requires DataAfter([Kid(e)] + rest, n.data) == DataAfter(rest, n.data)
    requires KidNodes([Kid(e)] + rest) == [ElementNode(e)] + KidNodes(rest)
    ensures AddItems(n, [Kid(e)] + rest) == AddItems(AddItem(n, Kid(e)), rest)
  {
    assert n.children + ([ElementNode(e)] + KidNodes(rest)) == (n.children + [ElementNode(e)]) + KidNodes(rest);
  }

  /** The items of a run handled on top of the entry `top`: the text chunks
      set its data in turn and the child elements are attached in order. */
  lemma {:induction false} ItemsRun(stack: seq<Node>, items: seq<Item>)
    requires stack != []
    ensures Run(stack, ItemsEvents(items)) == Ok(stack[..|stack| - 1] + [AddItems(stack[|stack| - 1], items)])
    decreases items, 1
  {
    var n := |stack|;
    var top := stack[n - 1];
    if items == [] {
      assert AddItems(top, items) == top;
      assert stack == stack[..n - 1] + [top];
    } else {
      var it := items[0];
      var rest := items[1..];
      assert items == [it] + rest;
      RunAppend(stack, ItemEvents(it), ItemsEvents(rest));
      ItemRun(stack, it);
      var s1 := stack[..n - 1] + [AddItem(top, it)];
      ItemsRun(s1, rest);
      assert s1[..n - 1] == stack[..n - 1] && s1[n - 1] == AddItem(top, it);
      AddItemsCons(top, it, rest);
    }
  }

  /** An end tag with the tag of the top entry closes it. */
  lemma CloseTop(stack: seq<Node>, x: Node)
    requires stack != []
    ensures Run(stack + [x], [EndTag(x.tag)]) == Ok(stack[..|stack| - 1] + [Append(stack[|stack| - 1], x)])
  {
    var full := stack + [x];
    var n := |full|;
    assert full[n - 1] == x;
    assert full[..n - 2] == stack[..|stack| - 1];
    assert full[n - 2] == stack[|stack| - 1];
    EndTagOnMatchingTop(full, x.tag);
    RunOne(full, EndTag(x.tag));
  }

  /** The events of one element, handled on any stack, attach the element's
      node as the last child of the top entry. */
  lemma {:induction false} ElementRun(stack: seq<Node>, e: Element)
    requires stack != []
    ensures Run(stack, ElementEvents(e)) == Ok(stack[..|stack| - 1] + [Append(stack[|stack| - 1], ElementNode(e))])
    decreases e, 2
  {
    var start: seq<Event> := [StartTag(e.tag, e.attrs)];
    var body := ItemsEvents(e.items);
    var end: seq<Event> := [EndTag(e.tag)];
    assert ElementEvents(e) == start + body + end;
    RunAppend(stack, start + body, end);
    RunAppend(stack, start, body);
    RunOne(stack, StartTag(e.tag, e.attrs));
    var newNode := NewNode(e.tag, e.attrs);
    var s1 := stack + [newNode];
    ItemsRun(s1, e.items);
    assert s1[..|stack|] == stack && s1[|stack|] == newNode;
    assert AddItems(newNode, e.items) == ElementNode(e);
    CloseTop(stack, ElementNode(e));
  }

  /** A fully closed, properly nested document, with text anywhere, fed to a
      builder holding only its childless root, leaves the root alone on the
      stack. Its children are the document's top-level elements, each
      nested and ordered as in the document; each node's data is the last
      non-empty text chunk directly inside it, stripped (so a chunk of
      blank space leaves `''`); the root's data is that of the top-level
      text, if any. */
  lemma BalancedDocument(root: Node, items: seq<Item>)
    requires root.children == []
    ensures Run([root], ItemsEvents(items)) ==
      Ok([root.(data := DataAfter(items, root.data), children := KidNodes(items))])
  {
    ItemsRun([root], items);
    var closed := AddItems(root, items);
    assert [root][..0] + [closed] == [closed];
    assert root.children + KidNodes(items) == KidNodes(items);
    assert closed == root.(data := DataAfter(items, root.data), children := KidNodes(items));
  }

  // ---------------------------------------------------------------------------
  // The parser object
  // ---------------------------------------------------------------------------

  class NodeParser {
    /** `self.root`. */
    var root: Node
    /** `self.orphans`: the open nodes not yet attached to a parent, oldest first. */
    var orphans: seq<Node>
    /** The labels of the root and of every node opened so far. */
    ghost var created: multiset<Label>

    /** The root is the bottom entry, and every node created so far is held
        exactly once: as a stack entry or as a child of one node. */
    ghost predicate Valid()
      reads this
    {
      && |orphans| >= 1
      && orphans[0] == root
      && root.tag == "root" && root.attributes == []
      && ForestLabels(orphans) == created
    }

    /** `NodeParser()`. */
    constructor ()
      ensures Valid()
      ensures orphans == [NewNode("root", [])]
      ensures created == multiset{LabelOf(NewNode("root", []))}
    {
      root := NewNode("root", []);
      orphans := [NewNode("root", [])];
      created := multiset{LabelOf(NewNode("root", []))};
      new;
      ForestLabelsSingle(root);
    }

    /** `handle_starttag`. */
    method HandleStartTag(tag: string, attrs: seq<(string, string)>)
      requires Valid()
      modifies this
      ensures Valid()
      ensures orphans == OnStartTag(old(orphans), tag, attrs) && root == old(root)
      ensures created == old(created) + multiset{LabelOf(NewNode(tag, attrs))}
    {
      ApplyLabels(orphans, StartTag(tag, attrs));
      assert [StartTag(tag, attrs)][1..] == [];
      orphans := orphans + [NewNode(tag, attrs)];
      created := created + multiset{LabelOf(NewNode(tag, attrs))};
    }

    /** `handle_endtag`: pop until an entry with the tag turns up or the stack
        is empty, append the popped entries to it in pop order, and append it
        to the new top. */
    method HandleEndTag(tag: string) returns (r: Outcome)
      requires Valid()
      modifies this
      ensures r.Pass? <==> exists j :: 1 <= j < |old(orphans)| && old(orphans)[j].tag == tag
      ensures r.Pass? ==> Valid() && OnEndTag(old(orphans), tag) == Ok(orphans) && created == old(created)
      ensures r.Fail? ==> && r.error == IndexError
                          && OnEndTag(old(orphans), tag) == Err(IndexError)
                          && orphans == []
                          && root == ClosedNode(old(orphans), tag)
    {
      ghost var s := orphans;
      var stack, children, node := PopUntil(orphans, tag);
      node := AppendEach(node, children);
      ClosedNodeAt(s, tag, |stack|);
      EndTagOutcome(s, tag, |stack|, stack);
      if |stack| == 0 {
        orphans := [];
        root := node;
        return Fail(IndexError);
      }
      var next := stack[..|stack| - 1] + [Append(stack[|stack| - 1], node)];
      orphans := next;
      root := next[0];
      return Pass;
    }

    /** The popping loop of `handle_endtag`: pop the top entry, then keep
        collecting it and popping the next one until the popped entry has the
        tag or nothing is left below it. */
    static method PopUntil(s: seq<Node>, tag: string) returns (stack: seq<Node>, children: seq<Node>, node: Node)
      requires s != []
      ensures |stack| == MatchIndex(s, tag) && stack == s[..|stack|]
      ensures node == s[|stack|] && children == Reversed(s[|stack| + 1..])
    {
      ghost var target := MatchIndex(s, tag);
      stack := s;
      children := [];
      node := stack[|stack| - 1];
      stack := stack[..|stack| - 1];
      assert s[|stack| + 1..] == [];
      while node.tag != tag && |stack| > 0
        invariant |stack| < |s| && stack == s[..|stack|] && node == s[|stack|]
        invariant children == Reversed(s[|stack| + 1..])
        invariant target <= |stack|
        decreases |stack|
      {
        var k := |stack|;
        ReversedPrepend(s, k);
        children := children + [node];
        node := stack[k - 1];
        stack := stack[..k - 1];
        assert node == s[k - 1] && stack == s[..k - 1];
      }
    }

    /** The `for` loop of `handle_endtag`: `node.append(n)` for each popped
        node `n`, in pop order. */
    static method AppendEach(node: Node, children: seq<Node>) returns (closed: Node)
      ensures closed == AppendAll(node, children)
    {
      closed := node;
      for i := 0 to |children|
        invariant closed == AppendAll(node, children[..i])
      {
        AppendAllPrefix(node, children, i);
        closed := Append(closed, children[i]);
      }
      assert children[..|children|] == children;
    }

    /** `handle_data`. */
    method HandleData(text: string)
      requires Valid()
      modifies this
      ensures Valid() && OnData(old(orphans), text) == Ok(orphans) && created == old(created)
    {
      ApplyLabels(orphans, Data(text));
      assert [Data(text)][1..] == [];
      if text != "" {
        orphans := orphans[..|orphans| - 1] + [orphans[|orphans| - 1].(data := Strip(text))];
        root := orphans[0];
      }
    }

    /** `parser.feed(html)`, once the tokenizer has turned the markup into
        events: one handler call per event, in order, until one raises. */
    method Feed(events: seq<Event>) returns (r: Outcome)
      requires Valid()
      modifies this
      ensures r.Pass? ==> Valid() && Run(old(orphans), events) == Ok(orphans)
      ensures r.Fail? ==> Run(old(orphans), events) == Err(r.error)
      ensures r.Fail? ==> r.error == IndexError && orphans == [] && StopsAtEndTag(old(orphans), events, root)
    {
      ghost var start := orphans;
      for i := 0 to |events|
        invariant Valid()
        invariant Run(start, events[..i]) == Ok(orphans)
      {
        RunStep(start, events, i, orphans);
        match events[i]
        case StartTag(tag, attrs) =>
          HandleStartTag(tag, attrs);
        case EndTag(tag) =>
          ghost var before := orphans;
          var o := HandleEndTag(tag);
          if o.Fail? {
            StopAtEndTag(start, events, i, before, tag);
            return o;
          }
        case Data(text) =>
          HandleData(text);
      }
      assert events[..|events|] == events;
      return Pass;
    }
  }
}
