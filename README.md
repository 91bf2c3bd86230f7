# HTML tree builder and selector engine of patch_bot

A model of the small, dependency-free HTML scraping core of `patch_bot`:

- **`NodeParser`** (`patch_bot/jhtmlnodeparser.py`). This is the tree builder.
  It receives the start-tag, end-tag and text events of a tokenizer. It keeps a
  stack `orphans` of open nodes that are not yet attached, seeded with a
  synthetic `root` node. Each end tag attaches the closed node to the entry
  below it.
- **`NodeSearcher` / `NodeCriteria`** (`patch_bot/jhtmlnodesearch.py`). This is
  the selector engine. A selector such as `table.forumTable td.thread` is
  compiled into one criterion per whitespace-separated token. Each token is
  read as `tag#id`, `tag[attr=value]`, `tag.class` or a bare `tag`. The
  criteria are then applied in turn. Each one replaces the working list by the
  matches in the subtrees of all its nodes, starting from the root itself.

Files:

| file | module | contents |
|---|---|---|
| `results.dfy` | `Results` | `IndexError`, `Option`, `Result`, `Outcome` |
| `text.dfy` | `Text` | `str.split()`, `str.strip()`, `str(n)` over ASCII whitespace |
| `node.dfy` | `HtmlNode` | `Node` as a value: attribute dict, `__init__`, `append`, `__str__`, pre-order |
| `node_parser.dfy` | `HtmlNodeParser` | the handlers as functions of the stack, their properties, the `NodeParser` class |
| `selector.dfy` | `SelectorCriteria` | the token classifier for `SELECTOR_PATTERN`, `NodeCriteria`, compilation |
| `node_search.dfy` | `HtmlNodeSearch` | subtree search, evaluation, the `NodeSearcher` class |

How the model is built:

- A node is changed in place only while it is on the stack. Nothing else refers
  to it then, so `Node` is a value datatype and the stack is a `seq<Node>`.
  Each in-place change of the source becomes a new value that replaces the
  old one on the stack.
- `NodeParser` is a class whose fields `root` and `orphans` the handlers
  reassign. Each handler is proved against a function of the old stack
  (`OnStartTag`, `OnEndTag`, `OnData`). The lemmas are stated about those
  functions.
- Python's dict keeps insertion order, and `__str__` prints attributes in that
  order. So the attribute dict is an association list with unique keys.
  `d[k] = v` updates an existing entry in place and appends a new key.
- "Every node is held exactly once" is stated with labels. A label is a
  node's tag and attributes, the fields that never change after creation. The
  multiset of labels on the stack and in all subtrees equals the labels of the
  root plus one label per start tag handled. Acyclicity holds by construction
  for a value datatype.
- `SELECTOR_PATTERN.findall` is not interpreted as a regular expression. For
  one token, the text each of its twelve groups captures is written out by
  hand (`TokenGroups`). `NewCriteria` then follows the branch chain over those
  groups, where `match_groups[k]` is group k + 1. The greedy `\S*` splits an id
  or class token at the rightmost `#` or `.` that has text after it. The
  attribute form needs a non-empty tag, attribute and value. For the
  attribute form, `AttrSplitIsGreatest` proves that the split chosen fits
  and is the greatest fitting split in every position. It is therefore the
  first split that greedy backtracking reaches, which tries the longest tag,
  then the longest attribute, then the longest value.

Behaviour worth knowing:

- **Stray end tag.** An end tag that no entry above the root has (including
  `</root>`) is not silently dropped. The loop pops every entry, root
  included, and appends the popped entries to the root in pop order. Then
  `self.orphans[-1]` raises `IndexError`. `NodeParser.HandleEndTag` returns
  `Fail(IndexError)` with `orphans == []` and the root changed in that way.
  `Feed` stops at the first such event.
- **Orphan order.** Nodes popped above the closed node are appended after its
  existing children, in pop order (most recently opened first), not in
  document order.
- **Blank text.** Whitespace-only text still overwrites the top node's `data`,
  with `''`. Only empty raw text leaves it alone.
- **Empty selector.** A selector with no tokens gives a searcher with no
  criteria. Its `is_valid` is true, and `results` raises `IndexError` at
  `pop(0)`.
- **Attribute token with trailing text.** In `x[a=b].c`, the regular
  expression's outer group repeats over `.c`, but the attribute groups keep
  their first capture. The token is therefore read as the attribute criterion
  `x[a=b]`, and the text after `]` is ignored. The model reproduces these
  captures instead of excluding such tokens.

## Model

| member | source | states |
|---|---|---|
| `Text.Words` | patch_bot/jhtmlnodeparser.py:13 | each word of `split()` is non-empty and free of whitespace |
| `Text.WordsJoinToNonSpace` | patch_bot/jhtmlnodeparser.py:13 | the words of `split()`, joined, are exactly the non-whitespace characters of the input, in order |
| `Text.WordsSplitAtSpace` | patch_bot/jhtmlnodeparser.py:13 | words break exactly at whitespace: a whitespace character between two strings gives the words of the first followed by the words of the second |
| `Text.WordsOfToken` | patch_bot/jhtmlnodesearch.py:9 | a string without whitespace splits into itself, or into nothing when it is empty |
| `Text.WordsOfBlank` | patch_bot/jhtmlnodesearch.py:9 | a blank string has no words |
| `Text.Strip` | patch_bot/jhtmlnodeparser.py:55 | the result of `strip()` neither starts nor ends with whitespace |
| `Text.StripIsSlice` | patch_bot/jhtmlnodeparser.py:55 | `strip()` removes only whitespace on either side and keeps the middle unchanged |
| `Text.StripBlank` | patch_bot/jhtmlnodeparser.py:55 | stripping a blank string gives `''` |
| `Text.NatToString` | patch_bot/jhtmlnodeparser.py:22 | `str(len(children))` is a decimal numeral without leading zeros that denotes the count |
| `HtmlNode.Lookup` | patch_bot/jhtmlnodeparser.py:12-15 | `key in d` fails exactly when no entry has the key |
| `HtmlNode.LookupAt` | patch_bot/jhtmlnodeparser.py:12-15 | with unique keys, `d[key]` is the value stored at the key's entry |
| `HtmlNode.Put` | patch_bot/jhtmlnodeparser.py:6 | `d[k] = v` appends a new key at the end and keeps the number of entries when the key exists |
| `HtmlNode.PutLookup` | patch_bot/jhtmlnodeparser.py:6 | `d[k] = v` keeps the keys unique, maps `k` to `v` and leaves every other key's value alone |
| `HtmlNode.PutKeepsPositions` | patch_bot/jhtmlnodeparser.py:6 | `d[k] = v` moves no entry: an existing key keeps its index and takes the new value, every other entry stays where it was, and a new key goes last |
| `HtmlNode.FirstIndex` | patch_bot/jhtmlnodeparser.py:6 | the index of the first pair with a key: that pair has the key and no earlier pair does, or no pair has it |
| `HtmlNode.LastValueAt` | patch_bot/jhtmlnodeparser.py:6 | a pair with no later pair of the same key supplies that key's final value |
| `HtmlNode.LastValueAbsent` | patch_bot/jhtmlnodeparser.py:6 | a key has no value exactly when no pair carries it |
| `HtmlNode.BuildAttributes` | patch_bot/jhtmlnodeparser.py:6 | the dict built from the `(name, value)` pairs has unique keys |
| `HtmlNode.BuildAttributesLookup` | patch_bot/jhtmlnodeparser.py:6 | the built dict holds, for every key, the value of its last pair, and nothing for a key no pair has |
| `HtmlNode.BuildAttributesAbsent` | patch_bot/jhtmlnodeparser.py:6 | a key missing from the built dict occurs in no pair |
| `HtmlNode.BuildAttributesOrder` | patch_bot/jhtmlnodeparser.py:6 | the built dict lists its keys in the order of their first occurrence among the pairs, so a later duplicate overwrites the value in place |
| `HtmlNode.PutKeepsOrder` | patch_bot/jhtmlnodeparser.py:6 | one more `d[k] = v` keeps the keys in first-occurrence order |
| `HtmlNode.NewNode` | patch_bot/jhtmlnodeparser.py:4-10 | a new node has the given tag, empty `data`, no children and unique attribute keys |
| `HtmlNode.NewNodeDerivedFields` | patch_bot/jhtmlnodeparser.py:4-15 | `id` is the last `id` value or `''`; `classNames` is the whitespace split of the last `class` value or `[]`; later duplicate attributes win |
| `HtmlNode.Append` | patch_bot/jhtmlnodeparser.py:29-30 | `append` adds the child after the existing children and changes nothing else |
| `HtmlNode.AppendAll` | patch_bot/jhtmlnodeparser.py:48-49 | a run of `append` calls adds the children in order after the existing ones and changes nothing else |
| `HtmlNode.PreOrder` | patch_bot/jhtmlnodesearch.py:18-24 | the pre-order of a subtree is non-empty and starts with its root |
| `HtmlNode.PreOrderForestAppend` | patch_bot/jhtmlnodesearch.py:22-23 | the pre-order of a list of trees is the pre-orders of its parts, concatenated |
| `HtmlNode.RenderShape` | patch_bot/jhtmlnodeparser.py:17-27 | `str(node)` starts with `<tag` and is exactly `<tag`, the attribute text, then `>[N children]data</tag>` with N the child count in decimal when there are children, else `>data</tag>` when there is data, else ` />` |
| `HtmlNode.AttrsTextInOrder` | patch_bot/jhtmlnodeparser.py:19-20 | the attribute text is ` k="v"` for the first entry followed by the text of the rest, so every entry is written in insertion order |
| `HtmlNode.ToString` | patch_bot/jhtmlnodeparser.py:17-27 | the accumulating loop produces the rendering, attributes in insertion order |
| `HtmlNodeParser.OnStartTag` | patch_bot/jhtmlnodeparser.py:38-39 | a start tag pushes one childless node with the tag and empty data, and leaves every entry below it unchanged |
| `HtmlNodeParser.ScanDown` | patch_bot/jhtmlnodeparser.py:44-46 | the popping loop stops at the first entry from the top with the tag, or at the bottom |
| `HtmlNodeParser.MatchIndex` | patch_bot/jhtmlnodeparser.py:44-46 | the closed entry is the topmost entry with the tag; every entry above it has another tag |
| `HtmlNodeParser.Reversed` | patch_bot/jhtmlnodeparser.py:44-49 | the popped list holds the entries above the match, most recently opened first |
| `HtmlNodeParser.OnEndTag` | patch_bot/jhtmlnodeparser.py:41-51 | an end tag on an empty stack raises; when it succeeds the stack shrinks, the entries below the new top are unchanged, the entry just above the new top has the tag and none above that one does |
| `HtmlNodeParser.OnData` | patch_bot/jhtmlnodeparser.py:53-55 | text raises exactly when it is non-empty and the stack is empty; otherwise the stack keeps its height and every entry below the top |
| `HtmlNodeParser.Apply` | patch_bot/jhtmlnodeparser.py:38-55 | whenever a handler returns, the bottom entry still has its tag and attributes |
| `HtmlNodeParser.Run` | patch_bot/patch_bot.py:183 | after a run that does not raise, the bottom entry still has its tag and attributes |
| `HtmlNodeParser.EndTagFails` | patch_bot/jhtmlnodeparser.py:44-51 | an end tag raises exactly when no entry above the bottom has its tag |
| `HtmlNodeParser.EndTagClosesTopmost` | patch_bot/jhtmlnodeparser.py:41-51 | the topmost entry with the tag takes the entries above it as children in pop order, becomes the last child of the entry below, and the stack ends there |
| `HtmlNodeParser.OrphansInPopOrder` | patch_bot/jhtmlnodeparser.py:44-49 | the closed node keeps its own children first, then the popped entries in pop order, each with its own subtree; its other fields are unchanged |
| `HtmlNodeParser.EndTagOnMatchingTop` | patch_bot/jhtmlnodeparser.py:41-51 | when the top entry has the tag, it simply becomes the last child of the entry below it |
| `HtmlNodeParser.ClosedNodeAt` | patch_bot/jhtmlnodeparser.py:48-49 | the closed node is the matched entry with the popped entries appended in pop order |
| `HtmlNodeParser.EndTagOutcome` | patch_bot/jhtmlnodeparser.py:41-51 | the end tag raises exactly when nothing is left below the match; otherwise the closed node becomes the last child of the new top, and no node is lost or duplicated |
| `HtmlNodeParser.DataTouchesTopOnly` | patch_bot/jhtmlnodeparser.py:53-55 | empty text changes nothing; other text sets the top entry's `data` to the stripped text and changes nothing else |
| `HtmlNodeParser.DataLastWins` | patch_bot/jhtmlnodeparser.py:53-55 | a later non-empty text replaces an earlier one rather than being concatenated to it |
| `HtmlNodeParser.BlankDataClears` | patch_bot/jhtmlnodeparser.py:53-55 | whitespace-only text overwrites the top entry's `data` with `''` |
| `HtmlNodeParser.ForestLabelsAppend` | patch_bot/jhtmlnodeparser.py:41-51 | the nodes held by two stack segments together are the nodes held by each |
| `HtmlNodeParser.ForestLabelsSingle` | patch_bot/jhtmlnodeparser.py:41-51 | a tree holds its own node and the nodes of its children's subtrees |
| `HtmlNodeParser.ReplacedNodeLabels` | patch_bot/jhtmlnodeparser.py:29-30 | appending children to a node adds exactly the nodes those children hold |
| `HtmlNodeParser.ForestLabelsReversed` | patch_bot/jhtmlnodeparser.py:44-49 | reordering the popped entries keeps the nodes they hold |
| `HtmlNodeParser.EndTagKeepsLabels` | patch_bot/jhtmlnodeparser.py:41-51 | closing a node moves nodes between the stack and children lists, and never loses or duplicates one |
| `HtmlNodeParser.StartTagLabels` | patch_bot/jhtmlnodeparser.py:38-39 | a start tag adds exactly the label of the node it creates |
| `HtmlNodeParser.DataLabels` | patch_bot/jhtmlnodeparser.py:53-55 | text adds and removes no node |
| `HtmlNodeParser.ApplyLabels` | patch_bot/jhtmlnodeparser.py:38-55 | each handled event adds the node it opens, if any, and keeps every other node exactly once |
| `HtmlNodeParser.RunLabels` | patch_bot/jhtmlnodeparser.py:33-55 | after any run that does not raise, the stack holds the starting nodes plus exactly one node per start tag, each once |
| `HtmlNodeParser.RunAppend` | patch_bot/patch_bot.py:183 | feeding two event sequences one after the other is feeding their concatenation; an exception ends the run |
| `HtmlNodeParser.RunOne` | patch_bot/patch_bot.py:183 | feeding one event is calling its handler |
| `HtmlNodeParser.RunStep` | patch_bot/patch_bot.py:183 | one more event is handled on the stack the events before it left |
| `HtmlNodeParser.RunStopsAt` | patch_bot/patch_bot.py:183 | the run ends with the exception of the first event whose handler raises, and the later events are not handled |
| `HtmlNodeParser.StopAtEndTag` | patch_bot/jhtmlnodeparser.py:41-51 | an end tag that pops the bottom entry ends the whole run with `IndexError` |
| `HtmlNodeParser.LastText` | patch_bot/jhtmlnodeparser.py:53-55 | the text left in a node's `data` comes from the last non-empty text chunk inside it, and there is none exactly when every chunk is empty |
| `HtmlNodeParser.LastTextCons` | patch_bot/jhtmlnodeparser.py:53-55 | a later non-empty chunk wins over an earlier one |
| `HtmlNodeParser.ItemRun` | patch_bot/jhtmlnodeparser.py:38-55 | the events of one text chunk or child element change only the top entry: text sets its data, an element is attached as its last child |
| `HtmlNodeParser.AddItemsCons` | patch_bot/jhtmlnodeparser.py:38-55 | the effect of a run of chunks and elements on a node is that of its first item, then of the rest |
| `HtmlNodeParser.ItemsRun` | patch_bot/jhtmlnodeparser.py:38-55 | text chunks and elements interleaved in any order, handled on a stack, leave the entries below the top alone; the top takes the elements as last children in order and the stripped last non-empty chunk as data |
| `HtmlNodeParser.CloseTop` | patch_bot/jhtmlnodeparser.py:41-51 | an end tag with the top entry's tag attaches that entry to the one below |
| `HtmlNodeParser.ElementRun` | patch_bot/jhtmlnodeparser.py:38-55 | the events of a well-nested element attach that element's node, with its subtree and its data, as the last child of the top entry |
| `HtmlNodeParser.BalancedDocument` | patch_bot/jhtmlnodeparser.py:33-55 | a fully closed, properly nested document with text anywhere leaves the root alone on the stack, with the document's elements as its children, nested and ordered as in the document, and each node's data the stripped last non-empty text directly inside it, or `''` |
| `HtmlNodeParser.NodeParser.constructor` | patch_bot/jhtmlnodeparser.py:33-36 | the stack holds just the synthetic `root` node |
| `HtmlNodeParser.NodeParser.HandleStartTag` | patch_bot/jhtmlnodeparser.py:38-39 | pushes the new node and keeps the parser invariant: root at the bottom, every node created held exactly once |
| `HtmlNodeParser.NodeParser.HandleEndTag` | patch_bot/jhtmlnodeparser.py:41-51 | succeeds exactly when an entry above the root has the tag, and then leaves the stack `OnEndTag` describes with the invariant kept; otherwise raises `IndexError` with the stack emptied and the root holding the popped entries |
| `HtmlNodeParser.NodeParser.PopUntil` | patch_bot/jhtmlnodeparser.py:42-46 | the popping loop stops at the topmost entry with the tag, or at the bottom, leaves the entries below it, and has collected the entries above it in pop order |
| `HtmlNodeParser.NodeParser.AppendEach` | patch_bot/jhtmlnodeparser.py:48-49 | the `for` loop appends the popped nodes in pop order after the existing children |
| `HtmlNodeParser.NodeParser.HandleData` | patch_bot/jhtmlnodeparser.py:53-55 | sets the top entry's data as `OnData` describes and keeps the parser invariant |
| `HtmlNodeParser.NodeParser.Feed` | patch_bot/patch_bot.py:181-183 | handles the events in order; without an exception it leaves the stack `Run` describes with the invariant kept; an exception is always `IndexError` from an end tag that popped the root, and leaves the stack empty and `root` the node that closing built |
| `SelectorCriteria.FindLast` | patch_bot/jhtmlnodesearch.py:5 | the rightmost occurrence of a character before a bound, or none |
| `SelectorCriteria.SplitAt` | patch_bot/jhtmlnodesearch.py:5 | `(\S*)<sep>(\S+)` splits at the rightmost separator that has text after it, or does not match |
| `SelectorCriteria.AttrSplit` | patch_bot/jhtmlnodesearch.py:5 | the brackets found give a non-empty tag, attribute and value |
| `SelectorCriteria.AttrSplitIsGreatest` | patch_bot/jhtmlnodesearch.py:5 | the split found fits and is the greatest fitting split in every position (tag end, `=`, closing `]`), and therefore the first one greedy backtracking reaches; when none is found, no split fits |
| `SelectorCriteria.ClassOrTagGroups` | patch_bot/jhtmlnodesearch.py:5 | a repetition by the class or bare-tag alternative fills four groups |
| `SelectorCriteria.AttrGroups` | patch_bot/jhtmlnodesearch.py:5 | an attribute match sets the whole-match group and groups 5 to 8, not group 2, and group 5 is a prefix of the token |
| `SelectorCriteria.AttrGroupsParts` | patch_bot/jhtmlnodesearch.py:5 | group 5 is `tag[attr=value]` built from groups 6, 7 and 8 |
| `SelectorCriteria.IdGroups` | patch_bot/jhtmlnodesearch.py:5 | an id match captures the whole token in groups 1 and 2 and leaves group 5 empty |
| `SelectorCriteria.PlainGroups` | patch_bot/jhtmlnodesearch.py:5 | a class or bare-tag match leaves groups 2 and 5 empty and takes groups 9 and 12 from that alternative |
| `SelectorCriteria.TokenGroups` | patch_bot/jhtmlnodesearch.py:5 | the whole-match group is set exactly when the token is non-empty |
| `SelectorCriteria.TokenGroupsShape` | patch_bot/jhtmlnodesearch.py:5 | group 2 is set exactly for an id token; otherwise group 5 exactly for an attribute token; otherwise group 9 exactly for a class token; a bare tag token is group 12 |
| `SelectorCriteria.NewCriteria` | patch_bot/jhtmlnodesearch.py:43-65 | the branch chain sets at most one of id, class and attribute, and with none of groups 2, 5, 9 and 12 set the criterion is not valid |
| `SelectorCriteria.IdTokenCriteria` | patch_bot/jhtmlnodesearch.py:50-53 | an id token sets only tag and id, split at the rightmost `#` with text after it; the id is non-empty |
| `SelectorCriteria.AttrShapeGroups` | patch_bot/jhtmlnodesearch.py:5 | an attribute token's groups are those of its first attribute match |
| `SelectorCriteria.AttrTokenCriteria` | patch_bot/jhtmlnodesearch.py:54-58 | an attribute token sets only tag, attribute and value; the tag is non-empty |
| `SelectorCriteria.ClassTokenCriteria` | patch_bot/jhtmlnodesearch.py:59-62 | a class token sets only tag and class, split at the rightmost `.` with text after it; the class is non-empty |
| `SelectorCriteria.TagTokenCriteria` | patch_bot/jhtmlnodesearch.py:63-65 | any other token sets only the tag, to the whole token |
| `SelectorCriteria.TokenCriteria` | patch_bot/jhtmlnodesearch.py:50-65 | every token is read in the priority order id, attribute, class, tag; exactly that shape's fields are set; the criterion is valid |
| `SelectorCriteria.IdTokenMatch` | patch_bot/jhtmlnodesearch.py:70-73 | an id criterion matches exactly the nodes with that id, and that tag when one is given |
| `SelectorCriteria.AttrTokenMatch` | patch_bot/jhtmlnodesearch.py:70-73 | an attribute criterion matches exactly the nodes with that tag whose dict maps the attribute to exactly that value |
| `SelectorCriteria.ClassTokenMatch` | patch_bot/jhtmlnodesearch.py:70-73 | a class criterion matches exactly the nodes with that class among their classNames, and that tag when one is given |
| `SelectorCriteria.TagTokenMatch` | patch_bot/jhtmlnodesearch.py:70-73 | a bare tag criterion matches exactly the nodes with that tag |
| `SelectorCriteria.IsValidCriteria` | patch_bot/jhtmlnodesearch.py:67-68 | `is_valid` holds when an id, tag or class is set, or an attribute with a value; an attribute name alone does not make it valid; its use in compiled criteria is stated by `TokenCriteria` and `InvalidMatchesNothing` |
| `SelectorCriteria.Matches` | patch_bot/jhtmlnodesearch.py:70-73 | only a valid criterion matches, and a named class must be among the node's class names; the full condition per token shape is stated by `IdTokenMatch`, `AttrTokenMatch`, `ClassTokenMatch`, `TagTokenMatch` and `InvalidMatchesNothing` |
| `SelectorCriteria.InvalidMatchesNothing` | patch_bot/jhtmlnodesearch.py:67-72 | a criterion that is not valid matches no node, the root included |
| `SelectorCriteria.FindAll` | patch_bot/jhtmlnodesearch.py:9 | `findall` yields one group tuple per whitespace-separated token, each with a non-empty whole match |
| `SelectorCriteria.CriteriaOf` | patch_bot/jhtmlnodesearch.py:9-10 | one criterion per group tuple, in order |
| `SelectorCriteria.Compile` | patch_bot/jhtmlnodesearch.py:7-10 | a selector gives one criterion per token, and every one is valid |
| `SelectorCriteria.CompileTokens` | patch_bot/jhtmlnodesearch.py:7-10 | a selector compiles to one criterion per whitespace-separated token, in order, each the criterion of its token and each valid |
| `SelectorCriteria.BlankSelector` | patch_bot/jhtmlnodesearch.py:7-10 | a blank selector compiles to no criteria |
| `SelectorCriteria.WordsOfPair` | patch_bot/jhtmlnodesearch.py:9 | two tokens separated by a space are found as those two tokens |
| `SelectorCriteria.ClassTokenOf` | patch_bot/jhtmlnodesearch.py:59-62 | `tag.cls` without `#` or `]` compiles to the class criterion with exactly that tag and class |
| `SelectorCriteria.CompilePair` | patch_bot/jhtmlnodesearch.py:7-10 | a two-token selector compiles to its tokens' criteria, in order |
| `SelectorCriteria.ForumTableToken` | patch_bot/jhtmlnodesearch.py:59-62 | `table.forumTable` is the class criterion with tag `table` and class `forumTable` |
| `SelectorCriteria.ThreadToken` | patch_bot/jhtmlnodesearch.py:59-62 | `td.thread` is the class criterion with tag `td` and class `thread` |
| `SelectorCriteria.ForumSelector` | patch_bot/patch_bot.py:186 | the scraper's selector compiles to a `table.forumTable` criterion followed by a `td.thread` criterion |
| `HtmlNodeSearch.Filter` | patch_bot/jhtmlnodesearch.py:19-20 | the nodes kept all meet the criterion, and there are no more of them than nodes visited |
| `HtmlNodeSearch.FilterMembership` | patch_bot/jhtmlnodesearch.py:19-20 | the search keeps exactly the nodes that match, and no more nodes than it visits |
| `HtmlNodeSearch.FilterAppend` | patch_bot/jhtmlnodesearch.py:22-23 | searching two parts in turn concatenates their matches |
| `HtmlNodeSearch.FilterCons` | patch_bot/jhtmlnodesearch.py:19-20 | the first node visited is kept exactly when it matches |
| `HtmlNodeSearch.Select` | patch_bot/jhtmlnodesearch.py:18-24 | every node found in a subtree meets the criterion, and there are no more of them than nodes in the subtree |
| `HtmlNodeSearch.SelectSplit` | patch_bot/jhtmlnodesearch.py:18-24 | a subtree's matches are the node itself, if it matches, then its children's matches, child after child |
| `HtmlNodeSearch.ForestPrefix` | patch_bot/jhtmlnodesearch.py:22-23 | searching one more child appends that child's matches |
| `HtmlNodeSearch.OnlyChild` | patch_bot/jhtmlnodesearch.py:18-24 | the pre-order of a node with one child is the node, then the child's pre-order |
| `HtmlNodeSearch.Step` | patch_bot/jhtmlnodesearch.py:30-33 | every node one criterion finds from the working list meets that criterion |
| `HtmlNodeSearch.StepPrefix` | patch_bot/jhtmlnodesearch.py:32-33 | searching from one more working node appends that node's matches |
| `HtmlNodeSearch.StepMembership` | patch_bot/jhtmlnodesearch.py:30-33 | a node is found by a step exactly when it matches and lies in the subtree of some working node |
| `HtmlNodeSearch.StepAppend` | patch_bot/jhtmlnodesearch.py:31-33 | the working nodes are searched independently and the results concatenated without deduplication |
| `HtmlNodeSearch.Evaluate` | patch_bot/jhtmlnodesearch.py:26-40 | with no criteria the working list is returned as it is; otherwise every node returned meets the last criterion |
| `HtmlNodeSearch.EvaluatePrefix` | patch_bot/jhtmlnodesearch.py:30-38 | applying one more criterion steps from the previous working list |
| `HtmlNodeSearch.EvaluateSnoc` | patch_bot/jhtmlnodesearch.py:30-38 | the last criterion is applied to what the criteria before it found |
| `HtmlNodeSearch.EvaluateLast` | patch_bot/jhtmlnodesearch.py:26-40 | a node is returned exactly when it meets the last criterion and is a descendant-or-self of a node the previous step returned |
| `HtmlNodeSearch.RootIsCandidate` | patch_bot/jhtmlnodesearch.py:26-29 | the first criterion is searched from the root itself, so a matching root is the first result |
| `HtmlNodeSearch.NestedMatchesDuplicate` | patch_bot/jhtmlnodesearch.py:31-33 | `div span` over a span inside two nested divs returns the span twice |
| `HtmlNodeSearch.NodeSearcher.constructor` | patch_bot/jhtmlnodesearch.py:7-10 | the criteria are the compiled selector |
| `HtmlNodeSearch.NodeSearcher.IsValid` | patch_bot/jhtmlnodesearch.py:12-16 | true exactly when every criterion is valid |
| `HtmlNodeSearch.NodeSearcher.ContextSearch` | patch_bot/jhtmlnodesearch.py:18-24 | returns exactly the matching nodes of the subtree, the node itself included, in pre-order |
| `HtmlNodeSearch.NodeSearcher.SearchChildren` | patch_bot/jhtmlnodesearch.py:22-23 | the `for` loop over the children returns the matches of each child's subtree, child after child |
| `HtmlNodeSearch.NodeSearcher.Results` | patch_bot/jhtmlnodesearch.py:26-40 | with no criteria, raises `IndexError`; otherwise returns the criteria applied in order from `[rootNode]`, which depends only on the tree and the criteria, so repeated calls agree |
| `HtmlNodeSearch.CompiledSearcherValid` | patch_bot/jhtmlnodesearch.py:12-16 | every compiled searcher is valid; it has no criteria exactly when the selector has no tokens |

## Left out

- The tokenizer. `html.parser.HTMLParser` turns markup into events: it
  lower-cases tags, decodes entities, and turns `<x/>` into a start and an end
  tag. The model starts from the event sequence (`Event`). `parser.feed` is
  modelled as handling those events in order.
- End of stream. The caller never calls `close()`. Unclosed nodes stay on the
  stack, and only `root` is read.
- Regular expressions in general. Only what `SELECTOR_PATTERN.findall` yields
  for a selector is modelled, token by token.
- Unicode whitespace. In the model, `\s`, `\S`, `split()` and `strip()` use
  the ASCII whitespace set (space, tab, line feed, carriage return, vertical
  tab, form feed). Python's `str.split()`, `str.strip()` and `re`'s `\s` also
  treat the separators `\x1c` to `\x1f` (FS, GS, RS, US) and non-ASCII
  whitespace (such as U+00A0 and U+2003) as whitespace. A class list, a
  stripped text or a selector containing those characters is split or
  trimmed differently by the model.
- Valueless attributes. For `<div hidden>` the tokenizer reports the pair
  `('hidden', None)`, and the dict built at jhtmlnodeparser.py:6 stores
  `None`. `__str__` then writes `hidden="None"`, a valueless `id` makes
  `self.id` `None`, and a valueless `class` makes `None.split()` at
  jhtmlnodeparser.py:13 raise `AttributeError`. In the model every
  attribute value is a string, so none of these cases is represented.
- Object identity. Nodes are values, so two distinct Python nodes with equal
  fields are equal in the model. "Each node held exactly once" is counted by
  label (tag and attributes), not by identity. Nothing in the core relies on
  identity, and there are no parent pointers.
- The bots. Polling loops, HTTP, the JSON config and secrets files, logging,
  dates, the timestamp watermark filter and the field extraction in
  `patch_bot/patch_bot.py`, `news_bot/news_bot.py` and
  `twitter_bot/twitter_bot.py` are not part of this model.
