/** `NodeSearcher` of patch_bot/jhtmlnodesearch.py: a compiled selector and
    its evaluation over a tree built by `NodeParser`. Each criterion in turn
    replaces the working list of nodes by the matches found in the subtrees
    of all of them, starting from the tree's root itself. */
module HtmlNodeSearch {
  import opened Results
  import opened Text
  import opened HtmlNode
  import opened SelectorCriteria

  // ---------------------------------------------------------------------------
  // The search as functions
  // ---------------------------------------------------------------------------

  /** The nodes of `ns` that meet `c`, in order. */
  function Filter(ns: seq<Node>, c: Criteria): (r: seq<Node>)
    ensures |r| <= |ns|
    ensures forall i :: 0 <= i < |r| ==> Matches(c, r[i])
  {
    if ns == [] then [] else Filter(ns[..|ns| - 1], c) + (if Matches(c, ns[|ns| - 1]) then [ns[|ns| - 1]] else [])
  }

  /** Filtering keeps exactly the nodes that meet the criterion, and never more nodes than it is given. */
  lemma {:induction false} FilterMembership(ns: seq<Node>, c: Criteria, x: Node)
    ensures |Filter(ns, c)| <= |ns|
    ensures x in Filter(ns, c) <==> x in ns && Matches(c, x)
  {
    if ns != [] {
      var front := ns[..|ns| - 1];
      FilterMembership(front, c, x);
      assert ns == front + [ns[|ns| - 1]];
    }
  }

  lemma {:induction false} FilterAppend(a: seq<Node>, b: seq<Node>, c: Criteria)
    ensures Filter(a + b, c) == Filter(a, c) + Filter(b, c)
    decreases |b|
  {
    if b == [] {
      assert a + b == a;
    } else {
      var b' := b[..|b| - 1];
      assert (a + b)[..|a + b| - 1] == a + b';
      assert (a + b)[|a + b| - 1] == b[|b| - 1];
      FilterAppend(a, b', c);
    }
  }

  /** The matches of `c` in the subtree of `n`, `n` included, in pre-order. */
  function Select(n: Node, c: Criteria): (r: seq<Node>)
    ensures |r| <= |PreOrder(n)|
    ensures forall i :: 0 <= i < |r| ==> Matches(c, r[i])
  {
    Filter(PreOrder(n), c)
  }

  /** One criterion applied to the working list: the matches in the subtree
      of each node of `w`, one list after the other. */
  function Step(w: seq<Node>, c: Criteria): (r: seq<Node>)
    ensures forall i :: 0 <= i < |r| ==> Matches(c, r[i])
  {
    if w == [] then [] else Step(w[..|w| - 1], c) + Select(w[|w| - 1], c)
  }

  /** The criteria applied in order, starting from the working list `w`. */
  function Evaluate(cs: seq<Criteria>, w: seq<Node>): (r: seq<Node>)
    ensures cs == [] ==> r == w
    ensures cs != [] ==> forall i :: 0 <= i < |r| ==> Matches(cs[|cs| - 1], r[i])
  {
    if cs == [] then w else Evaluate(cs[1..], Step(w, cs[0]))
  }

  /** A subtree's matches: the node itself if it matches, then the matches
      in its children's subtrees, child after child. */
  lemma SelectSplit(n: Node, c: Criteria)
    ensures Select(n, c) == Filter([n], c) + Filter(PreOrderForest(n.children), c)
  {
    FilterAppend([n], PreOrderForest(n.children), c);
  }

  lemma ForestPrefix(ns: seq<Node>, i: nat, c: Criteria)
    requires i < |ns|
    ensures Filter(PreOrderForest(ns[..i + 1]), c) == Filter(PreOrderForest(ns[..i]), c) + Select(ns[i], c)
  {
    var p := ns[..i + 1];
    assert p[..i] == ns[..i] && p[i] == ns[i];
    assert PreOrderForest(p) == PreOrderForest(ns[..i]) + PreOrder(ns[i]);
    FilterAppend(PreOrderForest(ns[..i]), PreOrder(ns[i]), c);
  }

  lemma StepPrefix(w: seq<Node>, j: nat, c: Criteria)
    requires j < |w|
    ensures Step(w[..j + 1], c) == Step(w[..j], c) + Select(w[j], c)
  {
    var p := w[..j + 1];
    assert p[..j] == w[..j] && p[j] == w[j];
  }

  lemma EvaluatePrefix(cs: seq<Criteria>, k: nat, w: seq<Node>)
    requires 0 < k <= |cs|
    ensures Evaluate(cs[..k], w) == Step(Evaluate(cs[..k - 1], w), cs[k - 1])
  {
    assert cs[..k - 1] + [cs[k - 1]] == cs[..k];
    EvaluateSnoc(cs[..k - 1], cs[k - 1], w);
  }

  // ---------------------------------------------------------------------------
  // What a search finds
  // ---------------------------------------------------------------------------

  /** A node is found by a step exactly when it meets the criterion and lies
      in the subtree of some node of the working list. */
  lemma {:induction false} StepMembership(w: seq<Node>, c: Criteria, x: Node)
    ensures x in Step(w, c) <==> Matches(c, x) && exists j :: 0 <= j < |w| && x in PreOrder(w[j])
  {
    if w != [] {
      var w' := w[..|w| - 1];
      StepMembership(w', c, x);
      FilterMembership(PreOrder(w[|w| - 1]), c, x);
      if x in Step(w, c) && x !in Select(w[|w| - 1], c) {
        var j :| 0 <= j < |w'| && x in PreOrder(w'[j]);
        assert w[j] == w'[j];
      }
      if Matches(c, x) && exists j :: 0 <= j < |w| && x in PreOrder(w[j]) {
        var j :| 0 <= j < |w| && x in PreOrder(w[j]);
        if j < |w| - 1 {
          assert w'[j] == w[j];
        }
      }
    }
  }

  /** The working lists of two halves are searched independently and the
      results concatenated, so overlapping subtrees contribute their
      matches twice. */
  lemma {:induction false} StepAppend(a: seq<Node>, b: seq<Node>, c: Criteria)
    ensures Step(a + b, c) == Step(a, c) + Step(b, c)
    decreases |b|
  {
    if b == [] {
      assert a + b == a;
    } else {
      var b' := b[..|b| - 1];
      assert (a + b)[..|a + b| - 1] == a + b';
      assert (a + b)[|a + b| - 1] == b[|b| - 1];
      StepAppend(a, b', c);
    }
  }

  lemma {:induction false} EvaluateSnoc(cs: seq<Criteria>, c: Criteria, w: seq<Node>)
    ensures Evaluate(cs + [c], w) == Step(Evaluate(cs, w), c)
    decreases |cs|
  {
    if cs == [] {
      assert [c][1..] == [];
    } else {
      assert (cs + [c])[0] == cs[0];
      assert (cs + [c])[1..] == cs[1..] + [c];
      EvaluateSnoc(cs[1..], c, Step(w, cs[0]));
    }
  }

  /** Every node a search returns meets the last criterion and lies in the
      subtree of a node the criteria before it returned. */
  lemma EvaluateLast(cs: seq<Criteria>, w: seq<Node>, x: Node)
    requires cs != []
    ensures var before := Evaluate(cs[..|cs| - 1], w);
      x in Evaluate(cs, w) <==>
        Matches(cs[|cs| - 1], x) && exists j :: 0 <= j < |before| && x in PreOrder(before[j])
  {
    var front := cs[..|cs| - 1];
    var last := cs[|cs| - 1];
    assert front + [last] == cs;
    EvaluateSnoc(front, last, w);
    StepMembership(Evaluate(front, w), last, x);
  }

  /** The first criterion is searched from the root itself, so the root is
      a candidate: when it meets the criterion it is the first result. */
  lemma RootIsCandidate(root: Node, c: Criteria)
    ensures Evaluate([c], [root]) == Select(root, c)
    ensures Matches(c, root) ==> |Evaluate([c], [root])| > 0 && Evaluate([c], [root])[0] == root
  {
    assert [c][1..] == [];
    assert [root][..0] == [];
    assert Step([root], c) == [] + Select(root, c);
    var pre := PreOrder(root);
    assert pre == [pre[0]] + pre[1..];
    FilterAppend([pre[0]], pre[1..], c);
    assert Filter([pre[0]], c) == Filter([], c) + (if Matches(c, pre[0]) then [pre[0]] else []);
  }

  lemma OnlyChild(n: Node, k: Node)
    requires n.children == [k]
    ensures PreOrder(n) == [n] + PreOrder(k)
  {
    assert [k][..0] == [];
    assert PreOrderForest([k]) == PreOrderForest([]) + PreOrder(k);
  }

  lemma FilterCons(x: Node, ns: seq<Node>, c: Criteria)
    ensures Filter([x] + ns, c) == (if Matches(c, x) then [x] else []) + Filter(ns, c)
  {
    FilterAppend([x], ns, c);
    assert [x][..0] == [];
  }

  /** Nested matches of one step give duplicates in the next: with a `span`
      inside a `div` inside a `div`, the selector `div span` returns the
      `span` twice, once from each `div`. */
  lemma NestedMatchesDuplicate(root: Node, outer: Node, inner: Node, span: Node)
    requires root.tag == "root" && root.children == [outer]
    requires outer.tag == "div" && outer.children == [inner]
    requires inner.tag == "div" && inner.children == [span]
    requires span.tag == "span" && span.children == []
    ensures Evaluate([Criteria("", "div", "", "", ""), Criteria("", "span", "", "", "")], [root]) == [span, span]
  {
    var div := Criteria("", "div", "", "", "");
    var sp := Criteria("", "span", "", "", "");
    var pSpan := [span];
    var pInner := [inner] + pSpan;
    var pOuter := [outer] + pInner;
    OnlyChild(inner, span);
    OnlyChild(outer, inner);
    OnlyChild(root, outer);
    assert PreOrder(span) == pSpan;
    FilterCons(span, [], div);
    FilterCons(inner, pSpan, div);
    FilterCons(outer, pInner, div);
    FilterCons(root, pOuter, div);
    assert Select(root, div) == [outer, inner];
    FilterCons(span, [], sp);
    FilterCons(inner, pSpan, sp);
    FilterCons(outer, pInner, sp);
    assert Select(outer, sp) == [span];
    assert Select(inner, sp) == [span];
    assert Step([root], div) == [outer, inner] by { assert [root][..0] == []; }
    assert Step([outer], sp) == [span] by { assert [outer][..0] == []; }
    assert Step([outer, inner], sp) == Step([outer], sp) + Select(inner, sp) by {
      assert [outer, inner][..1] == [outer];
    }
    assert [div, sp][1..] == [sp] && [sp][1..] == [];
    assert Evaluate([sp], [outer, inner]) == Evaluate([], [span, span]);
    assert Evaluate([div, sp], [root]) == Evaluate([sp], [outer, inner]);
  }

  // ---------------------------------------------------------------------------
  // The searcher object
  // ---------------------------------------------------------------------------

  class NodeSearcher {
    /** `self.__criteria`, fixed once the constructor has built it. */
    const criteria: seq<Criteria>

    /** `NodeSearcher(selector)`: one criterion per `findall` tuple, in order. */
    constructor (selector: string)
      ensures criteria == Compile(selector)
    {
      var groups := FindAll(selector);
      var cs: seq<Criteria> := [];
      for i := 0 to |groups|
        invariant cs == CriteriaOf(groups[..i])
      {
        assert groups[..i + 1][..i] == groups[..i];
        cs := cs + [NewCriteria(groups[i])];
      }
      assert groups[..|groups|] == groups;
      criteria := cs;
    }

    /** `is_valid`: whether every criterion is valid. */
    method IsValid() returns (v: bool)
      ensures v <==> forall i :: 0 <= i < |criteria| ==> IsValidCriteria(criteria[i])
    {
      for i := 0 to |criteria|
        invariant forall k :: 0 <= k < i ==> IsValidCriteria(criteria[k])
      {
        if !IsValidCriteria(criteria[i]) {
          return false;
        }
      }
      return true;
    }

    /** `__context_search`: the matches in the subtree of `refNode`, itself first. */
    method ContextSearch(refNode: Node, c: Criteria) returns (found: seq<Node>)
      ensures found == Select(refNode, c)
      decreases refNode, 1
    {
      found := [];
      if Matches(c, refNode) {
        found := found + [refNode];
      }
      assert found == Filter([refNode], c) by {
        assert [refNode][..0] == [];
      }
      var sub := SearchChildren(refNode.children, c);
      found := found + sub;
      SelectSplit(refNode, c);
    }

    /** The `for` loop of `context_search`: the matches in each child's
        subtree, child after child. */
    method SearchChildren(kids: seq<Node>, c: Criteria) returns (found: seq<Node>)
      ensures found == Filter(PreOrderForest(kids), c)
      decreases kids, 0
    {
      found := [];
      for i := 0 to |kids|
        invariant found == Filter(PreOrderForest(kids[..i]), c)
      {
        var sub := ContextSearch(kids[i], c);
        ForestPrefix(kids, i, c);
        found := found + sub;
      }
      assert kids[..|kids|] == kids;
    }

    method Results(rootNode: Node) returns (r: Result<seq<Node>>)
      ensures criteria == [] ==> r == Err(IndexError)
      ensures criteria != [] ==> r == Ok(Evaluate(criteria, [rootNode]))
    {
      var rest := criteria;
      if rest == [] {
        return Err(IndexError);
      }
      var c: Option<Criteria> := Some(rest[0]);
      rest := rest[1..];
      var results := [rootNode];
      ghost var popped := 1;
      assert criteria[..0] == [];
      while c.Some?
        invariant 1 <= popped <= |criteria| && rest == criteria[popped..]
        invariant c.Some? ==> c.value == criteria[popped - 1] && results == Evaluate(criteria[..popped - 1], [rootNode])
        invariant c.None? ==> popped == |criteria| && results == Evaluate(criteria[..popped], [rootNode])
        decreases |rest| + (if c.Some? then 1 else 0)
      {
        var next := [];
        for j := 0 to |results|
          invariant next == Step(results[..j], c.value)
        {
          var found := ContextSearch(results[j], c.value);
          StepPrefix(results, j, c.value);
          next := next + found;
        }
        assert results[..|results|] == results;
        EvaluatePrefix(criteria, popped, [rootNode]);
        if |rest| > 0 {
          c := Some(rest[0]);
          rest := rest[1..];
          popped := popped + 1;
        } else {
          c := None;
        }
        results := next;
      }
      assert criteria[..popped] == criteria;
      return Ok(results);
    }
  }

  /** A searcher built from any selector is valid, and one built from a
      blank selector has no criteria, so it is valid too but its `results`
      raises IndexError. */
  lemma CompiledSearcherValid(selector: string)
    ensures forall i :: 0 <= i < |Compile(selector)| ==> IsValidCriteria(Compile(selector)[i])
    ensures Compile(selector) == [] <==> Words(selector) == []
  {
    CompileTokens(selector);
  }
}
