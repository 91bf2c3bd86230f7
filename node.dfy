/** The `Node` class of patch_bot/jhtmlnodeparser.py as a value. A node is
    only ever changed while it sits on the parser's stack, where nothing else
    refers to it, so each in-place change of the source is here a new value
    that replaces the old one in the stack. */
module HtmlNode {
  import opened Results
  import opened Text

  /** A Python dict from attribute name to value, as the list of its entries
      in insertion order. */
  type Attributes = seq<(string, string)>

  datatype Node = Node(
    tag: string,
    attributes: Attributes,
    data: string,
    children: seq<Node>,
    classNames: seq<string>,
    id: string)

  // ---------------------------------------------------------------------------
  // The attribute dict
  // ---------------------------------------------------------------------------

  predicate UniqueKeys(attrs: Attributes)
  {
    forall i, j :: 0 <= i < j < |attrs| ==> attrs[i].0 != attrs[j].0
  }

  /** `key in d` and `d[key]`: the value of the first entry with that key. */
  function Lookup(attrs: Attributes, key: string): (r: Option<string>)
    ensures r.None? <==> forall i :: 0 <= i < |attrs| ==> attrs[i].0 != key
  {
    if attrs == [] then None
    else if attrs[0].0 == key then Some(attrs[0].1)
    else
      var r := Lookup(attrs[1..], key);
      assert forall i :: 0 < i < |attrs| ==> attrs[i] == attrs[1..][i - 1];
      r
  }

  /** With unique keys, the value `Lookup` reports is the one stored at the key's entry. */
  lemma {:induction false} LookupAt(attrs: Attributes, i: nat)
    requires UniqueKeys(attrs) && i < |attrs|
    ensures Lookup(attrs, attrs[i].0) == Some(attrs[i].1)
  {
    if i > 0 {
      assert attrs[1..][i - 1] == attrs[i];
      LookupAt(attrs[1..], i - 1);
    }
  }

  /** `d[key] = value`: an existing entry keeps its place and takes the new
      value; a new key goes at the end. */
  function Put(attrs: Attributes, key: string, value: string): (r: Attributes)
    ensures Lookup(attrs, key).None? ==> r == attrs + [(key, value)]
    ensures Lookup(attrs, key).Some? ==> |r| == |attrs|
  {
    if attrs == [] then [(key, value)]
    else if attrs[0].0 == key then [(key, value)] + attrs[1..]
    else [attrs[0]] + Put(attrs[1..], key, value)
  }

  /** After `d[key] = value` the keys are still unique, `key` maps to
      `value`, and every other key keeps its value. */
  lemma {:induction false} PutLookup(attrs: Attributes, key: string, value: string)
    requires UniqueKeys(attrs)
    ensures UniqueKeys(Put(attrs, key, value))
    ensures Lookup(Put(attrs, key, value), key) == Some(value)
    ensures forall k :: k != key ==> Lookup(Put(attrs, key, value), k) == Lookup(attrs, k)
  {
    var r := Put(attrs, key, value);
    if attrs == [] {
    } else if attrs[0].0 == key {
      assert forall i :: 0 < i < |r| ==> r[i] == attrs[i];
      forall k | k != key ensures Lookup(r, k) == Lookup(attrs, k) {
        assert r[1..] == attrs[1..];
      }
    } else {
      var tail := attrs[1..];
      TailUnique(attrs);
      PutLookup(tail, key, value);
      var rest := Put(tail, key, value);
      assert r == [attrs[0]] + rest && r[1..] == rest;
      forall i | 0 <= i < |rest| ensures rest[i].0 != attrs[0].0 {
        if rest[i].0 != key {
          assert Lookup(rest, rest[i].0).Some?;
          assert Lookup(tail, rest[i].0).Some?;
          assert forall j :: 0 <= j < |tail| ==> tail[j] == attrs[j + 1];
        }
      }
      ConsUnique(attrs[0], rest);
    }
  }

  lemma TailUnique(attrs: Attributes)
    requires UniqueKeys(attrs) && attrs != []
    ensures UniqueKeys(attrs[1..])
  {
    var tail := attrs[1..];
    forall i, j | 0 <= i < j < |tail| ensures tail[i].0 != tail[j].0 {
      assert tail[i] == attrs[i + 1] && tail[j] == attrs[j + 1];
    }
  }

  lemma ConsUnique(x: (string, string), rest: Attributes)
    requires UniqueKeys(rest) && forall i :: 0 <= i < |rest| ==> rest[i].0 != x.0
    ensures UniqueKeys([x] + rest)
  {
    var r := [x] + rest;
    forall i, j | 0 <= i < j < |r| ensures r[i].0 != r[j].0 {
      assert r[j] == rest[j - 1];
      if i > 0 {
        assert r[i] == rest[i - 1];
      }
    }
  }

  /** `d[key] = value` moves no entry: an existing key keeps its index and
      takes the new value, every other entry stays where it was, and a new
      key goes last. */
  lemma {:induction false} PutKeepsPositions(attrs: Attributes, key: string, value: string)
    requires UniqueKeys(attrs)
    ensures Lookup(attrs, key).None? ==> Put(attrs, key, value) == attrs + [(key, value)]
    ensures Lookup(attrs, key).Some? ==>
      && |Put(attrs, key, value)| == |attrs|
      && forall j :: 0 <= j < |attrs| ==>
           Put(attrs, key, value)[j] == (if attrs[j].0 == key then (key, value) else attrs[j])
  {
    if attrs != [] && attrs[0].0 != key {
      var tail := attrs[1..];
      assert UniqueKeys(tail) by {
        forall i, j | 0 <= i < j < |tail| ensures tail[i].0 != tail[j].0 {
          assert tail[i] == attrs[i + 1] && tail[j] == attrs[j + 1];
        }
      }
      PutKeepsPositions(tail, key, value);
      var r := Put(attrs, key, value);
      assert r == [attrs[0]] + Put(tail, key, value);
      if Lookup(attrs, key).Some? {
        forall j | 0 <= j < |attrs|
          ensures r[j] == (if attrs[j].0 == key then (key, value) else attrs[j])
        {
          if j > 0 {
            assert attrs[j] == tail[j - 1];
          }
        }
      }
    } else if attrs != [] {
      var r := Put(attrs, key, value);
      forall j | 0 < j < |attrs| ensures attrs[j].0 != key {
        assert attrs[0].0 != attrs[j].0;
      }
      assert forall j :: 0 < j < |attrs| ==> r[j] == attrs[j];
    }
  }

  /** The index of the first pair with this key, or `|pairs|` when there is none. */
  function FirstIndex(pairs: seq<(string, string)>, key: string): (r: nat)
    ensures r <= |pairs|
    ensures r < |pairs| ==> pairs[r].0 == key
    ensures forall i :: 0 <= i < r ==> pairs[i].0 != key
  {
    if pairs == [] then 0
    else if pairs[0].0 == key then 0
    else
      var r := 1 + FirstIndex(pairs[1..], key);
      assert forall i :: 1 <= i < |pairs| ==> pairs[i] == pairs[1..][i - 1];
      r
  }

  /** The value of the last pair with this key, if any: what a dict built
      from the pairs in order holds for the key, later pairs overwriting
      earlier ones. */
  function LastValue(pairs: seq<(string, string)>, key: string): Option<string>
  {
    if pairs == [] then None
    else if pairs[|pairs| - 1].0 == key then Some(pairs[|pairs| - 1].1)
    else LastValue(pairs[..|pairs| - 1], key)
  }

  /** A pair with no later pair of the same key gives the last value of its key. */
  lemma {:induction false} LastValueAt(pairs: seq<(string, string)>, i: nat)
    requires i < |pairs| && forall j :: i < j < |pairs| ==> pairs[j].0 != pairs[i].0
    ensures LastValue(pairs, pairs[i].0) == Some(pairs[i].1)
  {
    if i < |pairs| - 1 {
      var front := pairs[..|pairs| - 1];
      assert front[i] == pairs[i];
      LastValueAt(front, i);
    }
  }

  /** A key has no last value exactly when no pair has it. */
  lemma {:induction false} LastValueAbsent(pairs: seq<(string, string)>, key: string)
    ensures LastValue(pairs, key) == None <==> forall i :: 0 <= i < |pairs| ==> pairs[i].0 != key
  {
    if pairs != [] {
      var front := pairs[..|pairs| - 1];
      LastValueAbsent(front, key);
      assert forall i :: 0 <= i < |front| ==> front[i] == pairs[i];
    }
  }

  /** The dict comprehension `{v[0]: v[1] for v in attributes}`: each pair
      in turn is stored with `d[key] = value`. Its keys are unique. */
  function BuildAttributes(pairs: seq<(string, string)>): (r: Attributes)
    ensures UniqueKeys(r)
  {
    if pairs == [] then []
    else
      var rest := BuildAttributes(pairs[..|pairs| - 1]);
      PutLookup(rest, pairs[|pairs| - 1].0, pairs[|pairs| - 1].1);
      Put(rest, pairs[|pairs| - 1].0, pairs[|pairs| - 1].1)
  }

  /** The built dict holds, for every key, the value of its last pair, and
      nothing for a key that no pair has. */
  lemma {:induction false} BuildAttributesLookup(pairs: seq<(string, string)>, key: string)
    ensures Lookup(BuildAttributes(pairs), key) == LastValue(pairs, key)
  {
    if pairs != [] {
      var front := pairs[..|pairs| - 1];
      var last := pairs[|pairs| - 1];
      BuildAttributesLookup(front, key);
      PutLookup(BuildAttributes(front), last.0, last.1);
    }
  }

  lemma FirstIndexSnoc(front: seq<(string, string)>, p: (string, string), x: string)
    ensures FirstIndex(front, x) < |front| ==> FirstIndex(front + [p], x) == FirstIndex(front, x)
    ensures FirstIndex(front, x) == |front| && p.0 == x ==> FirstIndex(front + [p], x) == |front|
  {
    var s := front + [p];
    assert forall i :: 0 <= i < |front| ==> s[i] == front[i];
    assert s[|front|] == p;
  }

  /** A key the dict does not hold occurs in no pair. */
  lemma BuildAttributesAbsent(pairs: seq<(string, string)>, x: string)
    requires Lookup(BuildAttributes(pairs), x).None?
    ensures FirstIndex(pairs, x) == |pairs|
  {
    BuildAttributesLookup(pairs, x);
    LastValueAbsent(pairs, x);
  }

  /** Every key of `attrs` occurs among the pairs, and the keys are listed
      in the order of their first occurrence there. */
  predicate InFirstOccurrenceOrder(attrs: Attributes, pairs: seq<(string, string)>)
  {
    && (forall i :: 0 <= i < |attrs| ==> FirstIndex(pairs, attrs[i].0) < |pairs|)
    && (forall i, j :: 0 <= i < j < |attrs| ==> FirstIndex(pairs, attrs[i].0) < FirstIndex(pairs, attrs[j].0))
  }

  /** One more pair leaves the first occurrence of every earlier key in place. */
  lemma OrderExtends(attrs: Attributes, front: seq<(string, string)>, last: (string, string))
    requires InFirstOccurrenceOrder(attrs, front)
    ensures InFirstOccurrenceOrder(attrs, front + [last])
    ensures forall i :: 0 <= i < |attrs| ==> FirstIndex(front + [last], attrs[i].0) < |front|
  {
    forall i | 0 <= i < |attrs|
      ensures FirstIndex(front + [last], attrs[i].0) == FirstIndex(front, attrs[i].0)
    {
      FirstIndexSnoc(front, last, attrs[i].0);
    }
  }

  /** Storing one more pair keeps a dict in first-occurrence order. */
  lemma PutKeepsOrder(attrs: Attributes, front: seq<(string, string)>, last: (string, string))
    requires UniqueKeys(attrs) && InFirstOccurrenceOrder(attrs, front)
    requires Lookup(attrs, last.0).None? ==> FirstIndex(front, last.0) == |front|
    ensures InFirstOccurrenceOrder(Put(attrs, last.0, last.1), front + [last])
  {
    OrderExtends(attrs, front, last);
    PutKeepsPositions(attrs, last.0, last.1);
    if Lookup(attrs, last.0).Some? {
      SameKeysSameOrder(attrs, Put(attrs, last.0, last.1), front + [last]);
    } else {
      FirstIndexSnoc(front, last, last.0);
      SnocKeepsOrder(attrs, front + [last], last);
    }
  }

  lemma SameKeysSameOrder(attrs: Attributes, r: Attributes, pairs: seq<(string, string)>)
    requires InFirstOccurrenceOrder(attrs, pairs)
    requires |r| == |attrs| && forall i :: 0 <= i < |r| ==> r[i].0 == attrs[i].0
    ensures InFirstOccurrenceOrder(r, pairs)
  {
  }

  lemma SnocKeepsOrder(attrs: Attributes, pairs: seq<(string, string)>, last: (string, string))
    requires InFirstOccurrenceOrder(attrs, pairs)
    requires FirstIndex(pairs, last.0) < |pairs|
    requires forall i :: 0 <= i < |attrs| ==> FirstIndex(pairs, attrs[i].0) < FirstIndex(pairs, last.0)
    ensures InFirstOccurrenceOrder(attrs + [last], pairs)
  {
    var r := attrs + [last];
    forall i | 0 <= i < |r| ensures FirstIndex(pairs, r[i].0) < |pairs| {
      if i < |attrs| {
        assert r[i] == attrs[i];
      }
    }
    forall i, j | 0 <= i < j < |r| ensures FirstIndex(pairs, r[i].0) < FirstIndex(pairs, r[j].0) {
      assert r[i] == attrs[i];
      if j < |attrs| {
        assert r[j] == attrs[j];
      }
    }
  }

  /** The dict lists its keys in the order of their first occurrence among
      the pairs; a later duplicate changes a value, never the order. */
  lemma {:induction false} BuildAttributesOrder(pairs: seq<(string, string)>)
    ensures InFirstOccurrenceOrder(BuildAttributes(pairs), pairs)
  {
    if pairs != [] {
      var front := pairs[..|pairs| - 1];
      var last := pairs[|pairs| - 1];
      assert pairs == front + [last];
      var rest := BuildAttributes(front);
      BuildAttributesOrder(front);
      if Lookup(rest, last.0).None? {
        BuildAttributesAbsent(front, last.0);
      }
      PutKeepsOrder(rest, front, last);
    }
  }

  // ---------------------------------------------------------------------------
  // Node.__init__ and Node.append
  // ---------------------------------------------------------------------------

  /** `Node(tag, attributes)`. */
  function NewNode(tag: string, pairs: seq<(string, string)>): (n: Node)
    ensures n.tag == tag && n.data == "" && n.children == []
    ensures UniqueKeys(n.attributes)
  {
    var attrs := BuildAttributes(pairs);
    var classNames := match Lookup(attrs, "class") case Some(v) => Words(v) case None => [];
    var id := match Lookup(attrs, "id") case Some(v) => v case None => "";
    Node(tag, attrs, "", [], classNames, id)
  }

  /** The fields a new node derives from its attribute pairs: its dict
      holds the last value of every key; `id` is the last `id` value, or
      empty without one; `classNames` is the whitespace split of the last
      `class` value, or empty without one. */
  lemma NewNodeDerivedFields(tag: string, pairs: seq<(string, string)>, key: string)
    ensures Lookup(NewNode(tag, pairs).attributes, key) == LastValue(pairs, key)
    ensures NewNode(tag, pairs).id == match LastValue(pairs, "id") case Some(v) => v case None => ""
    ensures NewNode(tag, pairs).classNames == match LastValue(pairs, "class") case Some(v) => Words(v) case None => []
  {
    BuildAttributesLookup(pairs, key);
    BuildAttributesLookup(pairs, "id");
    BuildAttributesLookup(pairs, "class");
  }

  /** `node.append(child)`. */
  function Append(n: Node, child: Node): (r: Node)
    ensures r.children == n.children + [child]
    ensures r == n.(children := r.children)
  {
    n.(children := n.children + [child])
  }

  /** A run of `node.append(child)` calls, one per element of `cs`, in order. */
  function AppendAll(n: Node, cs: seq<Node>): (r: Node)
    ensures r.children == n.children + cs
    ensures r == n.(children := r.children)
  {
    n.(children := n.children + cs)
  }

  // ---------------------------------------------------------------------------
  // Tree traversal
  // ---------------------------------------------------------------------------

  /** The nodes of the subtree rooted at `n`, `n` first, in document pre-order. */
  function PreOrder(n: Node): (r: seq<Node>)
    ensures r != [] && r[0] == n
    decreases n, 1
  {
    [n] + PreOrderForest(n.children)
  }

  /** The pre-order of each tree of `ns`, one after the other. */
  function PreOrderForest(ns: seq<Node>): seq<Node>
    decreases ns, 0
  {
    if ns == [] then [] else PreOrderForest(ns[..|ns| - 1]) + PreOrder(ns[|ns| - 1])
  }

  lemma {:induction false} PreOrderForestAppend(a: seq<Node>, b: seq<Node>)
    ensures PreOrderForest(a + b) == PreOrderForest(a) + PreOrderForest(b)
    decreases |b|
  {
    if b == [] {
      assert a + b == a;
    } else {
      var b' := b[..|b| - 1];
      assert (a + b)[..|a + b| - 1] == a + b';
      assert (a + b)[|a + b| - 1] == b[|b| - 1];
      PreOrderForestAppend(a, b');
    }
  }

  // ---------------------------------------------------------------------------
  // Node.__str__
  // ---------------------------------------------------------------------------

  /** ` k="v"`: one attribute as `__str__` writes it. */
  function AttrText(kv: (string, string)): string
  {
    " " + kv.0 + "=\"" + kv.1 + "\""
  }

  /** The attribute part of `__str__`, entry after entry in insertion order. */
  function AttrsText(attrs: Attributes): string
  {
    if attrs == [] then "" else AttrsText(attrs[..|attrs| - 1]) + AttrText(attrs[|attrs| - 1])
  }

  /** What `__str__` writes after the attributes. */
  function Closing(n: Node): string
  {
    if |n.children| > 0 then ">[" + NatToString(|n.children|) + " children]" + n.data + "</" + n.tag + ">"
    else if n.data != "" then ">" + n.data + "</" + n.tag + ">"
    else " />"
  }

  /** `str(node)`. */
  function Render(n: Node): string
  {
    "<" + n.tag + AttrsText(n.attributes) + Closing(n)
  }

  /** The shape of `str(node)`: `<tag`, then ` k="v"` per attribute in
      insertion order, then one of three endings. A node with children
      writes `>[N children]`, its data and `</tag>`, N in decimal; a node with
      data but no children writes `>`, its data and `</tag>`; a node with
      neither writes ` />`. */
  lemma RenderShape(n: Node)
    ensures Render(n)[..|n.tag| + 1] == "<" + n.tag
    ensures |n.children| > 0 ==>
      Render(n) == "<" + n.tag + AttrsText(n.attributes) + ">[" + NatToString(|n.children|) + " children]" + n.data + "</" + n.tag + ">"
      && DecimalValue(NatToString(|n.children|)) == |n.children|
    ensures |n.children| == 0 && n.data != "" ==>
      Render(n) == "<" + n.tag + AttrsText(n.attributes) + ">" + n.data + "</" + n.tag + ">"
    ensures |n.children| == 0 && n.data == "" ==>
      Render(n) == "<" + n.tag + AttrsText(n.attributes) + " />"
  {
    RenderPrefix(n);
    if |n.children| > 0 {
      RenderWithChildren(n);
    } else if n.data != "" {
      RenderDataOnly(n);
    }
  }

  lemma RenderPrefix(n: Node)
    ensures Render(n)[..|n.tag| + 1] == "<" + n.tag
  {
    var head := "<" + n.tag;
    assert Render(n) == head + (AttrsText(n.attributes) + Closing(n));
  }

  lemma RenderWithChildren(n: Node)
    requires |n.children| > 0
    ensures Render(n) == "<" + n.tag + AttrsText(n.attributes) + ">[" + NatToString(|n.children|) + " children]" + n.data + "</" + n.tag + ">"
    ensures DecimalValue(NatToString(|n.children|)) == |n.children|
  {
  }

  lemma RenderDataOnly(n: Node)
    requires |n.children| == 0 && n.data != ""
    ensures Render(n) == "<" + n.tag + AttrsText(n.attributes) + ">" + n.data + "</" + n.tag + ">"
  {
  }

  /** The attribute text lists every entry in order, each as ` k="v"`. */
  lemma {:induction false} AttrsTextInOrder(attrs: Attributes, kv: (string, string))
    ensures AttrsText([kv] + attrs) == AttrText(kv) + AttrsText(attrs)
    decreases |attrs|
  {
    var s := [kv] + attrs;
    if attrs == [] {
      assert s[..0] == [];
    } else {
      var front := attrs[..|attrs| - 1];
      assert s[..|s| - 1] == [kv] + front;
      assert s[|s| - 1] == attrs[|attrs| - 1];
      AttrsTextInOrder(front, kv);
    }
  }

  /** `Node.__str__`: the string-accumulating loop over the attributes. */
  method ToString(n: Node) returns (s: string)
    ensures s == Render(n)
  {
    s := "<" + n.tag;
    for i := 0 to |n.attributes|
      invariant s == "<" + n.tag + AttrsText(n.attributes[..i])
    {
      var (k, v) := n.attributes[i];
      assert n.attributes[..i + 1][..i] == n.attributes[..i];
      s := s + (" " + k + "=\"" + v + "\"");
    }
    assert n.attributes[..|n.attributes|] == n.attributes;
    var tail: string;
    if |n.children| > 0 {
      tail := ">[" + NatToString(|n.children|) + " children]" + n.data + "</" + n.tag + ">";
    } else if n.data != "" {
      tail := ">" + n.data + "</" + n.tag + ">";
    } else {
      tail := " />";
    }
    s := s + tail;
  }
}
