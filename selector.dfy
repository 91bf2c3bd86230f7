/** `NodeCriteria` of patch_bot/jhtmlnodesearch.py and the token classifier
    it is built from: `SELECTOR_PATTERN`, a regular expression whose `findall`
    yields one tuple of twelve groups per whitespace-separated token of a
    selector. The regular expression is not interpreted in general; what it
    yields for one token is written out below, alternative by alternative:
      1. `(\S*)#(\S+)`        tag and id,
      2. `(\S+)\[(\S+)=(\S+)\]` tag, attribute and value,
      3. `(\S*)\.(\S+)`       tag and class,
      4. `(\S+)`              bare tag,
    tried in this order inside a repeated outer group. Group k + 1 is
    `match_groups[k]`. */
module SelectorCriteria {
  import opened Results
  import opened Text
  import opened HtmlNode

  // ---------------------------------------------------------------------------
  // Where the greedy alternatives split a token
  // ---------------------------------------------------------------------------

  /** The last index below `hi` that holds `ch`, or -1 when there is none. */
  function FindLast(t: string, ch: char, hi: nat): (r: int)
    requires hi <= |t|
    ensures -1 <= r < hi
    ensures r >= 0 ==> t[r] == ch
    ensures forall i :: r < i < hi ==> t[i] != ch
  {
    if hi == 0 then -1 else if t[hi - 1] == ch then hi - 1 else FindLast(t, ch, hi - 1)
  }

  /** Where `(\S*)<sep>(\S+)` splits a token: the greedy `\S*` takes all it
      can, so this is the rightmost `sep` that is not the last character,
      or -1 when the alternative does not match. */
  function SplitAt(t: string, sep: char): (p: int)
    ensures -1 <= p
    ensures p >= 0 ==> p + 1 < |t| && t[p] == sep
    ensures forall i :: p < i < |t| - 1 ==> t[i] != sep
  {
    if t == [] then -1 else FindLast(t, sep, |t| - 1)
  }

  /** The positions of `[`, `=` and `]` in a match of alternative 2. */
  datatype Brackets = Brackets(open: nat, eq: nat, close: nat)

  /** A choice of `[`, `=` and `]` that alternative 2 can match: every group
      non-empty, so a tag before `[`, an attribute before `=` and a value
      before `]`. */
  predicate Fits(t: string, i: int, j: int, k: int)
  {
    1 <= i && i + 2 <= j && j + 2 <= k < |t| && t[i] == '[' && t[j] == '=' && t[k] == ']'
  }

  /** Where alternative 2 matches at the start of a token: the rightmost `]`,
      then the rightmost `=` at least two places before it, then the rightmost
      `[` at least two places before that and not at the start. */
  function AttrSplit(t: string): (r: Option<Brackets>)
    ensures r.Some? ==> Fits(t, r.value.open, r.value.eq, r.value.close)
  {
    var k := FindLast(t, ']', |t|);
    if k < 1 then None
    else
      var j := FindLast(t, '=', k - 1);
      if j < 1 then None
      else
        var i := FindLast(t, '[', j - 1);
        if i < 1 then None else Some(Brackets(i, j, k))
  }

  /** Greedy backtracking tries the longest tag first, then the longest
      attribute, then the longest value, and takes the first choice that
      fits. The choice `AttrSplit` makes fits, and it is the greatest in each
      position of every choice that fits, so it is the one tried first; when
      it finds none, no choice fits. */
  lemma AttrSplitIsGreatest(t: string)
    ensures AttrSplit(t).None? ==> forall i, j, k :: !Fits(t, i, j, k)
    ensures AttrSplit(t).Some? ==> forall i, j, k :: Fits(t, i, j, k) ==>
      var b := AttrSplit(t).value; i <= b.open && j <= b.eq && k <= b.close
  {
    var k := FindLast(t, ']', |t|);
    if k >= 1 {
      var j := FindLast(t, '=', k - 1);
      forall i', j', k' | Fits(t, i', j', k') ensures j' <= j {
        assert k' <= k;
      }
    }
  }

  // ---------------------------------------------------------------------------
  // The groups `findall` yields for one token
  // ---------------------------------------------------------------------------

  /** One `findall` tuple: the text each of the pattern's twelve groups
      captured, '' for a group that took no part in the match. */
  type Groups = g: seq<string> | |g| == 12 witness ["", "", "", "", "", "", "", "", "", "", "", ""]

  /** Groups 9 to 12 of a repetition that consumes the whole of `r` by
      alternative 3, or else by alternative 4. */
  function ClassOrTagGroups(r: string): (g: seq<string>)
    ensures |g| == 4
  {
    var q := SplitAt(r, '.');
    if q >= 0 then [r, r[..q], r[q + 1..], ""] else ["", "", "", r]
  }

  /** The groups of a token that alternative 2 matches at the brackets `b`.
      When alternative 2 stops at a `]` that is not the token's last
      character, the outer group repeats once more over the rest, which holds
      no `]` and so matches alternative 3 or 4; the groups of alternative 2
      keep what they captured in the first repetition. */
  function AttrGroups(t: string, b: Brackets): (g: Groups)
    requires Fits(t, b.open, b.eq, b.close)
    ensures g[0] != "" && g[1] == "" && g[4] != ""
    ensures g[5] != "" && g[6] != "" && g[7] != ""
    ensures |g[4]| <= |t| && t[..|g[4]|] == g[4]
  {
    var whole := b.close == |t| - 1;
    var last := if whole then t else t[b.close + 1..];
    var x := if whole then ["", "", "", ""] else ClassOrTagGroups(last);
    var attr := [t[..b.close + 1], t[..b.open], t[b.open + 1..b.eq], t[b.eq + 1..b.close]];
    [last, "", "", ""] + attr + x
  }

  lemma BracketSlices(t: string, i: int, j: int, k: int)
    requires Fits(t, i, j, k)
    ensures t[..k + 1] == t[..i] + "[" + t[i + 1..j] + "=" + t[j + 1..k] + "]"
  {
    assert t[..k + 1] == t[..i] + t[i..i + 1] + t[i + 1..j] + t[j..j + 1] + t[j + 1..k] + t[k..k + 1];
    assert t[i..i + 1] == "[" && t[j..j + 1] == "=" && t[k..k + 1] == "]";
  }

  /** The text alternative 2 captures is its tag, attribute and value put
      back together between their brackets. */
  lemma AttrGroupsParts(t: string, b: Brackets)
    requires Fits(t, b.open, b.eq, b.close)
    ensures var g := AttrGroups(t, b); g[4] == g[5] + "[" + g[6] + "=" + g[7] + "]"
  {
    var g := AttrGroups(t, b);
    var whole, tag, attr, value := t[..b.close + 1], t[..b.open], t[b.open + 1..b.eq], t[b.eq + 1..b.close];
    assert g[4] == whole by { }
    assert g[5] == tag by { }
    assert g[6] == attr by { }
    assert g[7] == value by { }
    assert whole == tag + "[" + attr + "=" + value + "]" by {
      BracketSlices(t, b.open, b.eq, b.close);
    }
  }

  /** The groups of a token that alternative 1 matches, split at `p`. */
  function IdGroups(t: string, p: int): (g: Groups)
    requires 0 <= p && p + 1 < |t|
    ensures g[0] == t && g[1] == t && g[4] == ""
  {
    [t, t, t[..p], t[p + 1..], "", "", "", "", "", "", "", ""]
  }

  /** The groups of a token that alternative 3 or 4 matches whole. */
  function PlainGroups(t: string): (g: Groups)
    ensures g[0] == t && g[1] == "" && g[4] == ""
    ensures g[8] == ClassOrTagGroups(t)[0] && g[11] == ClassOrTagGroups(t)[3]
  {
    var x := ClassOrTagGroups(t);
    [t, "", "", ""] + ["", "", "", ""] + x
  }

  /** The twelve groups of the `findall` tuple for one token. */
  function TokenGroups(t: string): (g: Groups)
    ensures g[0] != "" <==> t != ""
  {
    var p := SplitAt(t, '#');
    if p >= 0 then IdGroups(t, p)
    else
      match AttrSplit(t)
      case Some(b) => AttrGroups(t, b)
      case None => PlainGroups(t)
  }

  /** Which alternative matched shows in which group is set: group 2 for an
      id token, else group 5 for an attribute token, else group 9 for a
      class token; a bare tag is group 12. */
  lemma TokenGroupsShape(t: string)
    ensures var g := TokenGroups(t);
      && (g[1] != "" <==> ShapeOf(t) == IdShape)
      && (g[1] == "" ==> (g[4] != "" <==> ShapeOf(t) == AttrShape))
      && (g[1] == "" && g[4] == "" ==> (g[8] != "" <==> ShapeOf(t) == ClassShape))
      && (ShapeOf(t) == TagShape ==> g[11] == t)
  {
    var p := SplitAt(t, '#');
    if p >= 0 {
      assert TokenGroups(t) == IdGroups(t, p);
    } else if AttrSplit(t).Some? {
      assert TokenGroups(t) == AttrGroups(t, AttrSplit(t).value);
    } else {
      assert TokenGroups(t) == PlainGroups(t);
    }
  }

  // ---------------------------------------------------------------------------
  // NodeCriteria
  // ---------------------------------------------------------------------------

  /** A `NodeCriteria` object; every field is '' unless its branch sets it. */
  datatype Criteria = Criteria(id: string, tag: string, className: string, attribute: string, attributeValue: string)

  /** `NodeCriteria(match_groups)`: the branch chain over the groups. */
  function NewCriteria(g: Groups): (c: Criteria)
    ensures c.id != "" ==> c.className == "" && c.attribute == "" && c.attributeValue == ""
    ensures c.className != "" ==> c.id == "" && c.attribute == "" && c.attributeValue == ""
    ensures c.attribute != "" ==> c.id == "" && c.className == ""
    ensures g[1] == "" && g[4] == "" && g[8] == "" && g[11] == "" ==> !IsValidCriteria(c)
  {
    if g[1] != "" then Criteria(g[3], g[2], "", "", "")
    else if g[4] != "" then Criteria("", g[5], "", g[6], g[7])
    else if g[8] != "" then Criteria("", g[9], g[10], "", "")
    else if g[11] != "" then Criteria("", g[11], "", "", "")
    else Criteria("", "", "", "", "")
  }

  /** `NodeCriteria.is_valid`: an attribute name alone, without a value,
      does not make a criterion valid. */
  predicate IsValidCriteria(c: Criteria)
    ensures c.id == "" && c.tag == "" && c.className == "" && c.attributeValue == "" ==> !IsValidCriteria(c)
  {
    c.id != "" || c.tag != "" || c.className != "" || (c.attribute != "" && c.attributeValue != "")
  }

  /** `NodeCriteria.match`: only a valid criterion matches, and a class
      named by the criterion must be among the node's class names. */
  predicate Matches(c: Criteria, n: Node)
    ensures Matches(c, n) ==> IsValidCriteria(c)
    ensures Matches(c, n) && c.className != "" ==> c.className in n.classNames
  {
    && IsValidCriteria(c)
    && (c.id == "" || c.id == n.id)
    && (c.tag == "" || c.tag == n.tag)
    && (c.className == "" || c.className in n.classNames)
    && (c.attribute == "" || Lookup(n.attributes, c.attribute) == Some(c.attributeValue))
  }

  /** The shape a token is read as, in priority order. */
  datatype Shape = IdShape | AttrShape | ClassShape | TagShape

  function ShapeOf(t: string): Shape
  {
    if SplitAt(t, '#') >= 0 then IdShape
    else if AttrSplit(t).Some? then AttrShape
    else if SplitAt(t, '.') >= 0 then ClassShape
    else TagShape
  }

  lemma IdTokenCriteria(t: string)
    requires ShapeOf(t) == IdShape
    ensures var p := SplitAt(t, '#');
      NewCriteria(TokenGroups(t)) == Criteria(t[p + 1..], t[..p], "", "", "") && t[p + 1..] != ""
  {
    var g := TokenGroups(t);
    assert g[1] == t;
  }

  lemma AttrShapeGroups(t: string)
    requires ShapeOf(t) == AttrShape
    ensures TokenGroups(t) == AttrGroups(t, AttrSplit(t).value)
  {
  }

  lemma AttrTokenCriteria(t: string)
    requires ShapeOf(t) == AttrShape
    ensures var b := AttrSplit(t).value;
      NewCriteria(TokenGroups(t)) == Criteria("", t[..b.open], "", t[b.open + 1..b.eq], t[b.eq + 1..b.close]) && t[..b.open] != ""
  {
    var b := AttrSplit(t).value;
    AttrShapeGroups(t);
    var g := AttrGroups(t, b);
    assert g[1] == "" && g[4] == t[..b.close + 1] && |g[4]| > 0;
  }

  lemma ClassTokenCriteria(t: string)
    requires ShapeOf(t) == ClassShape
    ensures var q := SplitAt(t, '.');
      NewCriteria(TokenGroups(t)) == Criteria("", t[..q], t[q + 1..], "", "") && t[q + 1..] != ""
  {
    var g := TokenGroups(t);
    assert g[1] == "" && g[4] == "" && g[8] == t;
  }

  lemma TagTokenCriteria(t: string)
    requires t != [] && ShapeOf(t) == TagShape
    ensures NewCriteria(TokenGroups(t)) == Criteria("", t, "", "", "")
  {
    var g := TokenGroups(t);
    assert g[1] == "" && g[4] == "" && g[8] == "" && g[11] == t;
  }

  /** What a token of each shape compiles to. An id token `tag#id` splits at
      its rightmost `#` with text after it, and the tag may be empty; an
      attribute token `tag[attr=value]` sets tag, attribute and value, and
      any text after its last `]` is ignored; a class token `tag.class`
      splits like an id token at `.`; any other token is a bare tag. */
  predicate ShapedCriteria(t: string, c: Criteria)
  {
    match ShapeOf(t)
    case IdShape =>
      var p := SplitAt(t, '#');
      p >= 0 && c == Criteria(t[p + 1..], t[..p], "", "", "")
    case AttrShape =>
      AttrSplit(t).Some? &&
      var b := AttrSplit(t).value;
      c == Criteria("", t[..b.open], "", t[b.open + 1..b.eq], t[b.eq + 1..b.close])
    case ClassShape =>
      var q := SplitAt(t, '.');
      q >= 0 && c == Criteria("", t[..q], t[q + 1..], "", "")
    case TagShape => c == Criteria("", t, "", "", "")
  }

  /** Every non-empty token compiles to the criterion of its shape, with
      exactly the fields of that shape set, and the criterion is valid. */
  lemma TokenCriteria(t: string)
    requires t != []
    ensures ShapedCriteria(t, NewCriteria(TokenGroups(t)))
    ensures IsValidCriteria(NewCriteria(TokenGroups(t)))
  {
    match ShapeOf(t)
    case IdShape => IdTokenCriteria(t);
    case AttrShape => AttrTokenCriteria(t);
    case ClassShape => ClassTokenCriteria(t);
    case TagShape => TagTokenCriteria(t);
  }

  /** Whether a node meets a compiled token depends only on the fields the
      token's shape names, compared exactly: an id token on the node's id
      and, when its tag part is not empty, the node's tag. */
  lemma IdTokenMatch(t: string, n: Node)
    requires ShapeOf(t) == IdShape
    ensures var p := SplitAt(t, '#');
      Matches(NewCriteria(TokenGroups(t)), n) <==> n.id == t[p + 1..] && (t[..p] == "" || n.tag == t[..p])
  {
    IdTokenCriteria(t);
  }

  /** An attribute token on the node's tag and the value its attribute dict holds for the key. */
  lemma AttrTokenMatch(t: string, n: Node)
    requires ShapeOf(t) == AttrShape
    ensures var b := AttrSplit(t).value;
      Matches(NewCriteria(TokenGroups(t)), n) <==>
        n.tag == t[..b.open] && Lookup(n.attributes, t[b.open + 1..b.eq]) == Some(t[b.eq + 1..b.close])
  {
    AttrTokenCriteria(t);
  }

  /** A class token on the node's class list and, when its tag part is not empty, the node's tag. */
  lemma ClassTokenMatch(t: string, n: Node)
    requires ShapeOf(t) == ClassShape
    ensures var q := SplitAt(t, '.');
      Matches(NewCriteria(TokenGroups(t)), n) <==> t[q + 1..] in n.classNames && (t[..q] == "" || n.tag == t[..q])
  {
    ClassTokenCriteria(t);
  }

  /** A bare tag token on the node's tag alone. */
  lemma TagTokenMatch(t: string, n: Node)
    requires t != [] && ShapeOf(t) == TagShape
    ensures Matches(NewCriteria(TokenGroups(t)), n) <==> n.tag == t
  {
    TagTokenCriteria(t);
  }

  // ---------------------------------------------------------------------------
  // Compiling a selector
  // ---------------------------------------------------------------------------

  /** `SELECTOR_PATTERN.findall(selector)`: every match starts with the
      token's leading whitespace and needs at least one non-whitespace
      character, and none reaches past a token, so there is one tuple per
      token of `selector.split()`. */
  function FindAll(selector: string): (r: seq<Groups>)
    ensures |r| == |Words(selector)|
    ensures forall i :: 0 <= i < |r| ==> r[i][0] != ""
  {
    var ws := Words(selector);
    assert forall i :: 0 <= i < |ws| ==> ws[i] != "" by {
      forall i | 0 <= i < |ws| ensures ws[i] != "" {
        assert ws[i] in ws;
      }
    }
    seq(|ws|, i requires 0 <= i < |ws| => TokenGroups(ws[i]))
  }

  /** The criteria built from a sequence of group tuples, in order. */
  function CriteriaOf(gs: seq<Groups>): (r: seq<Criteria>)
    ensures |r| == |gs|
    ensures forall i :: 0 <= i < |gs| ==> r[i] == NewCriteria(gs[i])
  {
    if gs == [] then [] else CriteriaOf(gs[..|gs| - 1]) + [NewCriteria(gs[|gs| - 1])]
  }

  /** The criteria list `NodeSearcher(selector)` builds. */
  function Compile(selector: string): (r: seq<Criteria>)
    ensures |r| == |Words(selector)|
    ensures forall i :: 0 <= i < |r| ==> IsValidCriteria(r[i])
  {
    var ws := Words(selector);
    assert forall i :: 0 <= i < |ws| ==> IsValidCriteria(NewCriteria(TokenGroups(ws[i]))) by {
      forall i | 0 <= i < |ws| ensures IsValidCriteria(NewCriteria(TokenGroups(ws[i]))) {
        assert ws[i] in ws;
        TokenCriteria(ws[i]);
      }
    }
    CriteriaOf(FindAll(selector))
  }

  /** A selector compiles to one criterion per whitespace-separated token, in
      order, each the criterion of its token, and every one of them valid. */
  lemma CompileTokens(selector: string)
    ensures |Compile(selector)| == |Words(selector)|
    ensures forall i :: 0 <= i < |Words(selector)| ==>
      Compile(selector)[i] == NewCriteria(TokenGroups(Words(selector)[i]))
    ensures forall i :: 0 <= i < |Words(selector)| ==> IsValidCriteria(Compile(selector)[i])
  {
    var ws := Words(selector);
    forall i | 0 <= i < |ws| ensures IsValidCriteria(Compile(selector)[i]) {
      assert ws[i] in ws;
      TokenCriteria(ws[i]);
    }
  }

  /** A blank selector compiles to no criteria at all. */
  lemma BlankSelector(selector: string)
    requires AllSpace(selector)
    ensures Compile(selector) == []
  {
    WordsOfBlank(selector);
  }

  /** A criterion that is not valid matches no node at all, the root included. */
  lemma InvalidMatchesNothing(c: Criteria, n: Node)
    requires !IsValidCriteria(c)
    ensures !Matches(c, n)
  {
  }

  /** Two tokens separated by one space split into exactly those two tokens. */
  lemma WordsOfPair(a: string, b: string)
    requires a != [] && b != [] && NoSpace(a) && NoSpace(b)
    ensures Words(a + " " + b) == [a, b]
  {
    var s := a + " " + b;
    var k := WordLength(s);
    assert s[..|a|] == a;
    assert IsSpace(s[|a|]);
    assert k == |a|;
    assert s[k..][1..] == b;
    WordsOfToken(b);
  }

  /** A token `tag.cls` without `#` or `]` whose class part holds no `.`
      compiles to the class criterion with exactly that tag and class. */
  lemma ClassTokenOf(tag: string, cls: string)
    requires cls != [] && '.' !in cls
    requires '#' !in tag + "." + cls && ']' !in tag + "." + cls
    ensures NewCriteria(TokenGroups(tag + "." + cls)) == Criteria("", tag, cls, "", "")
  {
    var t := tag + "." + cls;
    assert t[|tag|] == '.';
    assert forall i :: 0 <= i < |t| ==> t[i] != '#' && t[i] != ']' by {
      forall i | 0 <= i < |t| ensures t[i] != '#' && t[i] != ']' {
        assert t[i] in t;
      }
    }
    assert forall i :: |tag| < i < |t| ==> t[i] == cls[i - |tag| - 1];
    var q := SplitAt(t, '.');
    assert q == |tag| by {
      forall i | |tag| < i < |t| ensures t[i] != '.' {
        assert cls[i - |tag| - 1] in cls;
      }
    }
    assert SplitAt(t, '#') == -1;
    assert AttrSplit(t).None?;
    assert t[..q] == tag && t[q + 1..] == cls;
    ClassTokenCriteria(t);
  }

  /** A selector of two tokens compiles to the criteria of those tokens, in order. */
  lemma CompilePair(a: string, b: string)
    requires a != [] && b != [] && NoSpace(a) && NoSpace(b)
    ensures Compile(a + " " + b) == [NewCriteria(TokenGroups(a)), NewCriteria(TokenGroups(b))]
  {
    WordsOfPair(a, b);
    CompileTokens(a + " " + b);
  }

  lemma ForumTableToken()
    ensures NewCriteria(TokenGroups("table.forumTable")) == Criteria("", "table", "forumTable", "", "")
  {
    assert "table.forumTable" == "table" + "." + "forumTable";
    ClassTokenOf("table", "forumTable");
  }

  lemma ThreadToken()
    ensures NewCriteria(TokenGroups("td.thread")) == Criteria("", "td", "thread", "", "")
  {
    assert "td.thread" == "td" + "." + "thread";
    ClassTokenOf("td", "thread");
  }

  /** The selector the forum scraper compiles, `table.forumTable td.thread`:
      two class criteria, a `table` with class `forumTable` and then a `td`
      with class `thread`. */
  lemma ForumSelector()
    ensures Compile("table.forumTable td.thread") ==
      [Criteria("", "table", "forumTable", "", ""), Criteria("", "td", "thread", "", "")]
  {
    assert "table.forumTable td.thread" == "table.forumTable" + " " + "td.thread";
    assert NoSpace("table.forumTable") && NoSpace("td.thread");
    CompilePair("table.forumTable", "td.thread");
    ForumTableToken();
    ThreadToken();
  }
}
