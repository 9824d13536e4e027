/** The tag normaliser: comment removal, the post-order rewrite of a tag's
    children (`clean_tags`), the flattening of lists, and the document pass
    that sequences them. Two generations of the normaliser exist; they differ
    only in when a `span` is unwrapped and in which attributes survive. */
module CleanHtml {
  import opened Wrappers
  import opened Strings
  import opened Html

  /** The tags whose contents are cleaned. */
  const BasicElements: set<string> := {"table", "tr", "td", "th", "thead", "tbody", "caption", "li", "ul", "div"}

  /** The normaliser generations: the package's keeps `class`, the earlier script's strips every attribute. */
  datatype Variant = ClassPreserving | AttributeStripping

  // ---------------------------------------------------------------------------
  // The three rules of `clean_tags`

  /** The tag's `class` attribute is truthy: its value names at least one class. */
  predicate HasClass(attrs: map<string, string>) {
    "class" in attrs && Words(attrs["class"]) != []
  }

  /** Rule one: a tag named like its parent, or a `span` that carries nothing worth keeping, is unwrapped. */
  predicate Unwraps(v: Variant, parentName: string, t: Node): (r: bool)
    requires t.Element?
    ensures t.name == parentName ==> r
    ensures r && t.name != parentName ==> t.name == "span"
  {
    || t.name == parentName
    || (t.name == "span" && (match v
                              case ClassPreserving => !HasClass(t.attrs)
                              case AttributeStripping => t.attrs == map[]))
  }

  /** A string child made only of whitespace; a comment counts as a string too. */
  predicate BlankString(n: Node) {
    (n.TextNode? || n.CommentNode?) && IsSpace(n.text)
  }

  /** Rule two: no contents, or only blank strings. */
  predicate Blank(cs: seq<Node>) {
    forall k :: 0 <= k < |cs| ==> BlankString(cs[k])
  }

  /** Rule three: the attributes a kept tag is left with. */
  function FilterAttrs(v: Variant, attrs: map<string, string>): (r: map<string, string>)
    ensures r.Keys <= attrs.Keys
  {
    match v
    case ClassPreserving => if HasClass(attrs) then map["class" := attrs["class"]] else map[]
    case AttributeStripping => map[]
  }

  /** Filtering twice is filtering once. */
  lemma FilterAttrsIdempotent(v: Variant, attrs: map<string, string>)
    ensures FilterAttrs(v, FilterAttrs(v, attrs)) == FilterAttrs(v, attrs)
  {
  }

  /** What a child of a tag named `parentName` becomes: a string stays as it is; a tag
      is cleaned first, then unwrapped into its cleaned children, removed, or kept
      with filtered attributes. */
  function CleanChild(v: Variant, parentName: string, c: Node): seq<Node>
    decreases c, 0
  {
    if !c.Element? then [c]
    else
      var t := c.(children := CleanChildren(v, c.name, c.children));
      if Unwraps(v, parentName, t) then t.children
      else if Blank(t.children) then []
      else [t.(attrs := FilterAttrs(v, t.attrs))]
  }

  /** The children of a tag named `parentName` after `clean_tags`, each child handled on its own. */
  function CleanChildren(v: Variant, parentName: string, cs: seq<Node>): seq<Node>
    decreases cs
  {
    if cs == [] then [] else CleanChild(v, parentName, cs[0]) + CleanChildren(v, parentName, cs[1..])
  }

  /** `clean_tags(t)`: the tag with its children cleaned; its own name and attributes stay. */
  function Cleaned(v: Variant, t: Node): (r: Node)
    requires t.Element?
    ensures r.Element? && r.id == t.id && r.name == t.name && r.attrs == t.attrs
  {
    t.(children := CleanChildren(v, t.name, t.children))
  }

  /** The children are cleaned independently and in order. */
  lemma {:induction false} CleanChildrenAppend(v: Variant, parentName: string, a: seq<Node>, b: seq<Node>)
    ensures CleanChildren(v, parentName, a + b) == CleanChildren(v, parentName, a) + CleanChildren(v, parentName, b)
  {
    if a == [] {
      assert a + b == b;
    } else {
      assert (a + b)[0] == a[0];
      assert (a + b)[1..] == a[1..] + b;
      CleanChildrenAppend(v, parentName, a[1..], b);
    }
  }

  /** Blank strings contribute no stripped string. */
  lemma {:induction false} BlankHasNoText(cs: seq<Node>)
    requires Blank(cs)
    ensures StrippedStrings(cs) == []
  {
    if cs != [] {
      StripEmptyIff(cs[0].text);
      BlankHasNoText(cs[1..]);
      var head := if cs[0].TextNode? then [cs[0].text] else [];
      assert TextsOf(cs) == head + TextsOf(cs[1..]);
      StripAllAppend(head, TextsOf(cs[1..]));
      assert StripAll(head) == [] by {
        if cs[0].TextNode? {
          assert head[1..] == [];
        }
      }
    }
  }

  /** Cleaning never changes the visible text: the stripped strings are the same, in the same order. */
  lemma {:induction false} CleanChildrenText(v: Variant, parentName: string, cs: seq<Node>)
    ensures StrippedStrings(CleanChildren(v, parentName, cs)) == StrippedStrings(cs)
    decreases cs
  {
    if cs != [] {
      var head := CleanChild(v, parentName, cs[0]);
      var tail := CleanChildren(v, parentName, cs[1..]);
      CleanChildText(v, parentName, cs[0]);
      CleanChildrenText(v, parentName, cs[1..]);
      StrippedStringsCons(cs);
      StrippedStringsAppend(head, tail);
    }
  }

  lemma {:induction false} CleanChildText(v: Variant, parentName: string, c: Node)
    ensures StrippedStrings(CleanChild(v, parentName, c)) == StrippedStrings([c])
    decreases c, 0
  {
    if c.Element? {
      var t := c.(children := CleanChildren(v, c.name, c.children));
      CleanChildrenText(v, c.name, c.children);
      StrippedStringsElement(c);
      if !Unwraps(v, parentName, t) {
        if Blank(t.children) {
          BlankHasNoText(t.children);
        } else {
          StrippedStringsElement(t.(attrs := FilterAttrs(v, t.attrs)));
        }
      }
    }
  }

  /** Every tag in `ns`, at every depth, is in the shape cleaning leaves a kept tag in:
      filtered attributes, contents that are not all blank, and, when `class` is kept,
      not a class-less `span`. */
  predicate Tidy(v: Variant, ns: seq<Node>)
    decreases ns
  {
    forall k :: 0 <= k < |ns| ==> ns[k].Element? ==>
      && ns[k].attrs == FilterAttrs(v, ns[k].attrs)
      && !Blank(ns[k].children)
      && (v.ClassPreserving? ==> !(ns[k].name == "span" && !HasClass(ns[k].attrs)))
      && Tidy(v, ns[k].children)
  }

  lemma TidyAppend(v: Variant, a: seq<Node>, b: seq<Node>)
    requires Tidy(v, a) && Tidy(v, b)
    ensures Tidy(v, a + b)
  {
    forall k | 0 <= k < |a + b| && (a + b)[k].Element?
      ensures Tidy(v, (a + b)[k].children)
    {
      if k >= |a| {
        assert (a + b)[k] == b[k - |a|];
      }
    }
  }

  /** Whatever tags survive cleaning, at any depth, including the ones spliced in by an unwrap, are tidy. */
  lemma {:induction false} CleanChildrenTidy(v: Variant, parentName: string, cs: seq<Node>)
    ensures Tidy(v, CleanChildren(v, parentName, cs))
    decreases cs
  {
    if cs != [] {
      CleanChildTidy(v, parentName, cs[0]);
      CleanChildrenTidy(v, parentName, cs[1..]);
      TidyAppend(v, CleanChild(v, parentName, cs[0]), CleanChildren(v, parentName, cs[1..]));
    }
  }

  lemma {:induction false} CleanChildTidy(v: Variant, parentName: string, c: Node)
    ensures Tidy(v, CleanChild(v, parentName, c))
    decreases c, 0
  {
    if c.Element? {
      var t := c.(children := CleanChildren(v, c.name, c.children));
      CleanChildrenTidy(v, c.name, c.children);
      if !Unwraps(v, parentName, t) && !Blank(t.children) {
        var kept := t.(attrs := FilterAttrs(v, t.attrs));
        FilterAttrsIdempotent(v, t.attrs);
        assert [kept][0] == kept;
      }
    }
  }

  /** Not a comment. */
  function NotComment(): Node -> bool {
    (n: Node) => !n.CommentNode?
  }

  /** Cleaning brings in no comment and no tag identity that was not there. */
  lemma {:induction false} CleanChildrenKeeps(v: Variant, parentName: string, cs: seq<Node>, bound: nat)
    ensures Everywhere(cs, NotComment()) ==> Everywhere(CleanChildren(v, parentName, cs), NotComment())
    ensures IdsBelow(cs, bound) ==> IdsBelow(CleanChildren(v, parentName, cs), bound)
    decreases cs
  {
    if cs != [] {
      CleanChildKeeps(v, parentName, cs[0], bound);
      CleanChildrenKeeps(v, parentName, cs[1..], bound);
      assert cs == [cs[0]] + cs[1..];
      EverywhereAppend([cs[0]], cs[1..], NotComment());
      EverywhereAppend([cs[0]], cs[1..], IdBelow(bound));
      EverywhereAppend(CleanChild(v, parentName, cs[0]), CleanChildren(v, parentName, cs[1..]), NotComment());
      EverywhereAppend(CleanChild(v, parentName, cs[0]), CleanChildren(v, parentName, cs[1..]), IdBelow(bound));
    }
  }

  lemma {:induction false} CleanChildKeeps(v: Variant, parentName: string, c: Node, bound: nat)
    ensures Everywhere([c], NotComment()) ==> Everywhere(CleanChild(v, parentName, c), NotComment())
    ensures IdsBelow([c], bound) ==> IdsBelow(CleanChild(v, parentName, c), bound)
    decreases c, 0
  {
    if c.Element? {
      var t := c.(children := CleanChildren(v, c.name, c.children));
      CleanChildrenKeeps(v, c.name, c.children, bound);
      EverywhereSingle(c, NotComment());
      EverywhereSingle(c, IdBelow(bound));
      if !Unwraps(v, parentName, t) && !Blank(t.children) {
        var kept := t.(attrs := FilterAttrs(v, t.attrs));
        EverywhereSingle(kept, NotComment());
        EverywhereSingle(kept, IdBelow(bound));
      }
    }
  }

  /** `clean_tags(tag)`: each direct child tag, in order, is cleaned first and then
      unwrapped, decomposed or stripped of attributes; strings are passed over. */
  method CleanTags(v: Variant, tag: Node) returns (r: Node)
    requires tag.Element?
    ensures r == Cleaned(v, tag)
    decreases tag
  {
    var out: seq<Node> := [];
    var i := 0;
    while i < |tag.children|
      invariant 0 <= i <= |tag.children|
      invariant out == CleanChildren(v, tag.name, tag.children[..i])
    {
      var c := tag.children[i];
      var piece: seq<Node>;
      if c.Element? {
        var t := CleanTags(v, c);
        if Unwraps(v, tag.name, t) {
          piece := t.children;
        } else if Blank(t.children) {
          piece := [];
        } else {
          piece := [t.(attrs := FilterAttrs(v, t.attrs))];
        }
      } else {
        piece := [c];
      }
      assert piece == CleanChild(v, tag.name, c);
      assert tag.children[..i + 1] == tag.children[..i] + [c];
      CleanChildrenAppend(v, tag.name, tag.children[..i], [c]);
      assert CleanChildren(v, tag.name, [c]) == CleanChild(v, tag.name, c) + CleanChildren(v, tag.name, []);
      out := out + piece;
      i := i + 1;
    }
    assert tag.children[..i] == tag.children;
    r := tag.(children := out);
  }

  // ---------------------------------------------------------------------------
  // `remove_comments`

  /** The tree with every comment, at every depth, left out and nothing else changed. */
  function StripComments(ns: seq<Node>): seq<Node>
    decreases ns
  {
    if ns == [] then []
    else
      (match ns[0]
       case CommentNode(_) => []
       case TextNode(_) => [ns[0]]
       case Element(_, _, _, kids) => [ns[0].(children := StripComments(kids))])
      + StripComments(ns[1..])
  }

  /** The number of comments under `ns`: the length of `findAll(string=<a Comment>)`. */
  function CommentCount(ns: seq<Node>): nat
    decreases ns
  {
    if ns == [] then 0
    else
      (match ns[0]
       case CommentNode(_) => 1
       case TextNode(_) => 0
       case Element(_, _, _, kids) => CommentCount(kids))
      + CommentCount(ns[1..])
  }

  /** The path of the first comment in document order. */
  function FirstComment(ns: seq<Node>): (r: Option<seq<nat>>)
    ensures r.Some? ==> ValidPath(ns, r.value) && At(ns, r.value).CommentNode?
    ensures r.None? <==> CommentCount(ns) == 0
  {
    if ns == [] then None
    else if ns[0].CommentNode? then Some([0])
    else
      var inner := if ns[0].Element? then FirstComment(ns[0].children) else None;
      if inner.Some? then
        assert ([0] + inner.value)[1..] == inner.value;
        Some([0] + inner.value)
      else
        match FirstComment(ns[1..])
        case None => None
        case Some(q) =>
          var p := [q[0] + 1] + q[1..];
          assert p[1..] == q[1..];
          assert ns[p[0]] == ns[1..][q[0]];
          assert |q| > 1 ==> At(ns, p) == At(ns[1..][q[0]].children, q[1..]);
          Some(p)
  }

  lemma {:induction false} StripCommentsAppend(a: seq<Node>, b: seq<Node>)
    ensures StripComments(a + b) == StripComments(a) + StripComments(b)
    ensures CommentCount(a + b) == CommentCount(a) + CommentCount(b)
  {
    if a == [] {
      assert a + b == b;
    } else {
      assert (a + b)[0] == a[0];
      assert (a + b)[1..] == a[1..] + b;
      StripCommentsAppend(a[1..], b);
    }
  }

  /** A list seen as the part before position `i`, the node at `i`, and the part after. */
  lemma StripCommentsAround(ns: seq<Node>, i: nat, x: Node)
    requires i < |ns|
    ensures StripComments(ns[i := x]) == StripComments(ns[..i]) + StripComments([x]) + StripComments(ns[i + 1..])
    ensures CommentCount(ns[i := x]) == CommentCount(ns[..i]) + CommentCount([x]) + CommentCount(ns[i + 1..])
  {
    assert ns[i := x] == ns[..i] + ([x] + ns[i + 1..]);
    StripCommentsAppend(ns[..i], [x] + ns[i + 1..]);
    StripCommentsAppend([x], ns[i + 1..]);
  }

  /** Taking out one comment leaves one comment fewer and the same comment-free tree. */
  lemma {:induction false} RemoveOneComment(ns: seq<Node>, p: seq<nat>)
    requires ValidPath(ns, p) && At(ns, p).CommentNode?
    ensures CommentCount(RemoveAt(ns, p)) == CommentCount(ns) - 1
    ensures StripComments(RemoveAt(ns, p)) == StripComments(ns)
  {
    var i := p[0];
    StripCommentsAround(ns, i, ns[i]);
    assert ns[i := ns[i]] == ns;
    if |p| == 1 {
      assert RemoveAt(ns, p) == ns[..i] + ns[i + 1..];
      StripCommentsAppend(ns[..i], ns[i + 1..]);
      assert [ns[i]][1..] == [];
    } else {
      var x := ns[i].(children := RemoveAt(ns[i].children, p[1..]));
      RemoveOneComment(ns[i].children, p[1..]);
      StripCommentsAround(ns, i, x);
      assert [x][1..] == [] && [ns[i]][1..] == [];
    }
  }

  /** A tree without comments is its own comment-free version. */
  lemma {:induction false} StripCommentsNone(ns: seq<Node>)
    requires CommentCount(ns) == 0
    ensures StripComments(ns) == ns
    decreases ns
  {
    if ns != [] {
      if ns[0].Element? {
        StripCommentsNone(ns[0].children);
      }
      StripCommentsNone(ns[1..]);
      assert ns == [ns[0]] + ns[1..];
    }
  }

  /** No comment is left, at any depth. */
  lemma {:induction false} StripCommentsClean(ns: seq<Node>)
    ensures Everywhere(StripComments(ns), NotComment())
    decreases ns
  {
    if ns != [] {
      var head := match ns[0]
        case CommentNode(_) => []
        case TextNode(_) => [ns[0]]
        case Element(_, _, _, kids) => [ns[0].(children := StripComments(kids))];
      if ns[0].Element? {
        StripCommentsClean(ns[0].children);
        EverywhereSingle(head[0], NotComment());
        assert head == [head[0]];
      } else if ns[0].TextNode? {
        EverywhereSingle(ns[0], NotComment());
      }
      StripCommentsClean(ns[1..]);
      EverywhereAppend(head, StripComments(ns[1..]), NotComment());
    }
  }

  /** Comments are not text: removing them changes no stripped string. */
  lemma {:induction false} StripCommentsText(ns: seq<Node>)
    ensures StrippedStrings(StripComments(ns)) == StrippedStrings(ns)
    decreases ns
  {
    if ns != [] {
      StripCommentsTextOne(ns[0]);
      StripCommentsText(ns[1..]);
      StripCommentsCons(ns);
      StrippedStringsCons(ns);
      StrippedStringsAppend(StripComments([ns[0]]), StripComments(ns[1..]));
    }
  }

  /** Removing comments from a non-empty list treats its head, then its tail. */
  lemma StripCommentsCons(ns: seq<Node>)
    requires ns != []
    ensures StripComments(ns) == StripComments([ns[0]]) + StripComments(ns[1..])
  {
    assert [ns[0]][1..] == [];
  }

  lemma {:induction false} StripCommentsTextOne(n: Node)
    ensures StrippedStrings(StripComments([n])) == StrippedStrings([n])
    decreases n, 0
  {
    assert [n][1..] == [];
    match n
    case Element(_, _, _, kids) =>
      var m := n.(children := StripComments(kids));
      assert StripComments([n]) == [m];
      StripCommentsText(kids);
      StrippedStringsElement(n);
      StrippedStringsElement(m);
    case CommentNode(_) =>
      assert TextsOf([n]) == [];
    case TextNode(_) =>
  }

  /** `remove_comments(soup)`: every comment found is extracted, one after the other. */
  method RemoveComments(soup: Soup)
    requires soup.Valid()
    modifies soup
    ensures soup.Valid() && soup.nextId == old(soup.nextId)
    ensures soup.root == old(soup.root).(children := StripComments(old(soup.root.children)))
  {
    var count := CommentCount(soup.root.children);
    var i := 0;
    while i < count
      invariant 0 <= i <= count
      invariant soup.Valid() && soup.nextId == old(soup.nextId)
      invariant soup.root == old(soup.root).(children := soup.root.children)
      invariant CommentCount(soup.root.children) == count - i
      invariant StripComments(soup.root.children) == StripComments(old(soup.root.children))
    {
      var ns := soup.root.children;
      var p := FirstComment(ns).value;
      RemoveOneComment(ns, p);
      IdsBelowRemoveAt(ns, p, soup.nextId);
      soup.root := soup.root.(children := RemoveAt(ns, p));
      i := i + 1;
    }
    StripCommentsNone(soup.root.children);
  }

  // ---------------------------------------------------------------------------
  // `simplify_list`

  /** The new `li` for an item whose text is `text`: a fresh, attribute-less tag whose only
      content is that text. */
  function Item(text: string, id: nat): Node {
    Element(id, "li", map[], [TextNode(text)])
  }

  /** The new items for the texts `texts[..n]`, in order, taking identities from `first` on. */
  function SimplifiedItems(texts: seq<string>, n: nat, first: nat): (r: seq<Node>)
    requires n <= |texts|
    ensures |r| == n
  {
    if n == 0 then [] else SimplifiedItems(texts, n - 1, first) + [Item(texts[n - 1], first + n - 1)]
  }

  /** The direct `li` children of a list tag. */
  function ListItems(list: Node): seq<Node> {
    ChildElements(ChildrenOf(list), Some("li"))
  }

  /** Each item's text: its stripped strings joined by single spaces. */
  function ItemTexts(lis: seq<Node>): (r: seq<string>)
    ensures |r| == |lis|
  {
    seq(|lis|, k requires 0 <= k < |lis| => GetText(ChildrenOf(lis[k]), " "))
  }

  /** What `simplify_list(list_tag)` returns when the new list tag receives identity `id`:
      a tag of the same name, without attributes, holding one new item per direct `li`. */
  function SimplifiedList(list: Node, id: nat): Node
    requires list.Element?
  {
    Element(id, list.name, map[], SimplifiedItems(ItemTexts(ListItems(list)), |ListItems(list)|, id + 1))
  }

  /** The `k`-th new item is made from the `k`-th text. */
  lemma {:induction false} SimplifiedItemsAt(texts: seq<string>, n: nat, first: nat, k: nat)
    requires k < n <= |texts|
    ensures SimplifiedItems(texts, n, first)[k] == Item(texts[k], first + k)
  {
    if k < n - 1 {
      SimplifiedItemsAt(texts, n - 1, first, k);
    }
  }

  /** The simplified list keeps the list's name, drops its attributes and everything that
      is not a direct `li`, and each remaining item becomes a bare `li` holding one
      stripped string: the old item's text. */
  lemma SimplifiedListShape(list: Node, id: nat, k: nat)
    requires list.Element? && k < |ListItems(list)|
    ensures var r := SimplifiedList(list, id);
      && r.name == list.name && r.attrs == map[] && |r.children| == |ListItems(list)|
      && r.children[k].Element? && r.children[k].name == "li" && r.children[k].attrs == map[]
      && r.children[k].children == [TextNode(GetText(ListItems(list)[k].children, " "))]
      && Trimmed(r.children[k].children[0].text)
  {
    var lis := ListItems(list);
    SimplifiedItemsAt(ItemTexts(lis), |lis|, id + 1, k);
    GetTextTrimmed(lis[k].children, " ");
  }

  /** The new items bring no comment and take only identities below `first + n`. */
  lemma SimplifiedItemsKeep(texts: seq<string>, n: nat, first: nat)
    requires n <= |texts|
    ensures IdsBelow(SimplifiedItems(texts, n, first), first + n)
    ensures Everywhere(SimplifiedItems(texts, n, first), NotComment())
  {
    var items := SimplifiedItems(texts, n, first);
    forall k | 0 <= k < n
      ensures items[k] == Item(texts[k], first + k)
    {
      SimplifiedItemsAt(texts, n, first, k);
    }
    forall k | 0 <= k < n
      ensures IdsBelow(items[k].children, first + n) && Everywhere(items[k].children, NotComment())
    {
      EverywhereSingle(items[k].children[0], NotComment());
      EverywhereSingle(items[k].children[0], IdBelow(first + n));
    }
  }

  /** The simplified list brings no comment and only identities from `id` to `id + |ListItems(list)|`. */
  lemma SimplifiedListKeeps(list: Node, id: nat)
    requires list.Element?
    ensures IdsBelow([SimplifiedList(list, id)], id + 1 + |ListItems(list)|)
    ensures Everywhere([SimplifiedList(list, id)], NotComment())
  {
    var r := SimplifiedList(list, id);
    SimplifiedItemsKeep(ItemTexts(ListItems(list)), |ListItems(list)|, id + 1);
    IdsBelowElement(r, id + 1 + |ListItems(list)|);
    EverywhereSingle(r, NotComment());
  }

  /** `simplify_list(list_tag)`: a new list tag of the same name, then one new `li` per
      direct `li` child, in order, each given the item's text as its string. The new tags
      belong to a scratch soup; they take the identities `first`, `first + 1`, and so on. */
  method SimplifyList(list: Node, first: nat) returns (r: Node)
    requires list.Element?
    ensures r == SimplifiedList(list, first)
  {
    var newList := Element(first, list.name, map[], []);
    var lis := ListItems(list);
    var items := NewItems(ItemTexts(lis), first + 1);
    r := newList.(children := items);
  }

  /** The loop of `simplify_list`: one new `li` per text, in order, appended to the new
      list, the `i`-th taking identity `first + i`. */
  method NewItems(texts: seq<string>, first: nat) returns (items: seq<Node>)
    ensures items == SimplifiedItems(texts, |texts|, first)
  {
    items := [];
    for i := 0 to |texts|
      invariant items == SimplifiedItems(texts, i, first)
    {
      var li := Element(first + i, "li", map[], []);
      li := li.(children := [TextNode(texts[i])]);
      items := items + [li];
    }
  }

  // ---------------------------------------------------------------------------
  // `clean_document`

  /** The document's nodes after `clean_tags` on the tag with identity `id`. A tag that an
      earlier step unwrapped or decomposed is no longer in the document, and cleaning
      it changes nothing there. */
  function CleanedAt(v: Variant, ns: seq<Node>, id: nat): seq<Node> {
    match FindById(ns, id)
    case None => ns
    case Some(p) => ReplaceAt(ns, p, Cleaned(v, At(ns, p)))
  }

  /** Cleaning one tag in place changes no stripped string of the document. */
  lemma CleanedAtText(v: Variant, ns: seq<Node>, id: nat)
    ensures StrippedStrings(CleanedAt(v, ns, id)) == StrippedStrings(ns)
  {
    var found := FindById(ns, id);
    if found.Some? {
      var p := found.value;
      var t := At(ns, p);
      var c := Cleaned(v, t);
      CleanChildrenText(v, t.name, t.children);
      StrippedStringsElement(t);
      StrippedStringsElement(c);
      StrippedStringsReplaceAt(ns, p, c);
    }
  }

  /** Cleaning one tag in place brings in no comment. */
  lemma CleanedAtClean(v: Variant, ns: seq<Node>, id: nat)
    requires Everywhere(ns, NotComment())
    ensures Everywhere(CleanedAt(v, ns, id), NotComment())
  {
    var found := FindById(ns, id);
    if found.Some? {
      var p := found.value;
      var t := At(ns, p);
      var c := Cleaned(v, t);
      CleanChildrenKeeps(v, t.name, t.children, 0);
      EverywhereAt(ns, p, NotComment());
      EverywhereSingle(t, NotComment());
      EverywhereSingle(c, NotComment());
      EverywhereReplaceAt(ns, p, c, NotComment());
    }
  }

  /** A tag in the tree keeps, once cleaned, its identities below the bound. */
  lemma CleanedIds(v: Variant, t: Node, bound: nat)
    requires t.Element?
    ensures IdsBelow([t], bound) ==> IdsBelow([Cleaned(v, t)], bound)
  {
    CleanChildrenKeeps(v, t.name, t.children, bound);
    IdsBelowElement(t, bound);
    IdsBelowElement(Cleaned(v, t), bound);
  }

  /** `clean_tags(element)` on the tag with identity `id`, wherever it now is. */
  method CleanById(soup: Soup, v: Variant, id: nat)
    requires soup.Valid()
    modifies soup
    ensures soup.Valid() && soup.nextId == old(soup.nextId)
    ensures soup.root == old(soup.root).(children := CleanedAt(v, old(soup.root.children), id))
  {
    var ns := soup.root.children;
    var found := FindById(ns, id);
    if found.Some? {
      var t := CleanTags(v, At(ns, found.value));
      EverywhereAt(ns, found.value, IdBelow(soup.nextId));
      CleanedIds(v, At(ns, found.value), soup.nextId);
      IdsBelowReplaceAt(ns, found.value, t, soup.nextId);
      soup.root := soup.root.(children := ReplaceAt(ns, found.value, t));
    }
  }

  /** `list_tag.replace_with(simplify_list(list_tag))` on the list with identity `id`, the new
      tags taking identities from `firstNew` on. A list inside a list already replaced is no
      longer in the document, and replacing it changes nothing there. */
  function SimplifiedAt(ns: seq<Node>, id: nat, firstNew: nat): seq<Node> {
    match FindById(ns, id)
    case None => ns
    case Some(p) => ReplaceAt(ns, p, SimplifiedList(At(ns, p), firstNew))
  }

  /** Replacing one list brings in no comment. */
  lemma SimplifiedAtKeeps(ns: seq<Node>, id: nat, firstNew: nat)
    ensures Everywhere(ns, NotComment()) ==> Everywhere(SimplifiedAt(ns, id, firstNew), NotComment())
  {
    var found := FindById(ns, id);
    if found.Some? && Everywhere(ns, NotComment()) {
      SimplifiedListKeeps(At(ns, found.value), firstNew);
      EverywhereReplaceAt(ns, found.value, SimplifiedList(At(ns, found.value), firstNew), NotComment());
    }
  }

  /** Replacing a list keeps every identity of the document below the counter as it
      stands after `simplify_list`. */
  lemma SimplifiedAtIds(ns: seq<Node>, p: seq<nat>, firstNew: nat, bound: nat)
    requires ValidPath(ns, p) && At(ns, p).Element? && IdsBelow(ns, firstNew)
    requires bound == firstNew + 1 + |ListItems(At(ns, p))|
    ensures IdsBelow(ReplaceAt(ns, p, SimplifiedList(At(ns, p), firstNew)), bound)
  {
    var list := At(ns, p);
    SimplifiedListKeeps(list, firstNew);
    IdsBelowMono(ns, firstNew, bound);
    IdsBelowReplaceAt(ns, p, SimplifiedList(list, firstNew), bound);
  }

  /** How many identities replacing the list with identity `id` takes from the counter: one
      for the new list and one per item, none when the list is no longer in the document. */
  function SimplifyCost(ns: seq<Node>, id: nat): nat {
    match FindById(ns, id)
    case None => 0
    case Some(p) => 1 + |ListItems(At(ns, p))|
  }

  /** What replacing the list with identity `id` by its simplified version does to a
      document whose identities are below `firstNew`: the identities stay below the
      advanced counter. */
  lemma SimplifiedAtById(ns: seq<Node>, id: nat, firstNew: nat)
    requires IdsBelow(ns, firstNew)
    ensures IdsBelow(SimplifiedAt(ns, id, firstNew), firstNew + SimplifyCost(ns, id))
  {
    match FindById(ns, id)
    case None =>
      assert SimplifiedAt(ns, id, firstNew) == ns && SimplifyCost(ns, id) == 0;
    case Some(p) =>
      SimplifiedAtFound(ns, id, firstNew, p);
      SimplifiedAtIds(ns, p, firstNew, firstNew + 1 + |ListItems(At(ns, p))|);
  }

  /** Where the list is found, it is replaced by its simplified version, and the counter
      advances by one for the new list and one per item. */
  lemma SimplifiedAtFound(ns: seq<Node>, id: nat, firstNew: nat, p: seq<nat>)
    requires FindById(ns, id) == Some(p)
    ensures SimplifiedAt(ns, id, firstNew) == ReplaceAt(ns, p, SimplifiedList(At(ns, p), firstNew))
    ensures SimplifyCost(ns, id) == 1 + |ListItems(At(ns, p))|
  {
  }

  method SimplifyById(soup: Soup, id: nat)
    requires soup.Valid()
    modifies soup
    ensures soup.Valid() && soup.nextId == old(soup.nextId) + SimplifyCost(old(soup.root.children), id)
    ensures soup.root == old(soup.root).(children := SimplifiedAt(old(soup.root.children), id, old(soup.nextId)))
  {
    var ns := soup.root.children;
    var found := FindById(ns, id);
    if found.Some? {
      var p := found.value;
      var list := At(ns, p);
      var cost := 1 + |ListItems(list)|;
      SimplifiedAtFound(ns, id, soup.nextId, p);
      var first := soup.Allocate(cost);
      var r := SimplifyList(list, first);
      SimplifiedAtIds(ns, p, first, soup.nextId);
      soup.root := soup.root.(children := ReplaceAt(ns, p, r));
    } else {
      assert SimplifiedAt(ns, id, soup.nextId) == ns && SimplifyCost(ns, id) == 0;
    }
  }


  /** The identities of a sequence of tags, in order. */
  function TagIds(ts: seq<Node>): (r: seq<nat>)
    requires forall k :: 0 <= k < |ts| ==> ts[k].Element?
    ensures |r| == |ts| && forall k :: 0 <= k < |ts| ==> r[k] == ts[k].id
  {
    seq(|ts|, k requires 0 <= k < |ts| => ts[k].id)
  }

  /** `soup.find_all(name)` as the identities of the tags it returns, in document order. */
  function Found(ns: seq<Node>, name: string): seq<nat> {
    TagIds(FindAll(ns, Selector(name, None)))
  }

  /** The tags with identities `ids[..n]` cleaned one after the other. */
  function CleanedEach(v: Variant, ns: seq<Node>, ids: seq<nat>, n: nat): seq<Node>
    requires n <= |ids|
  {
    if n == 0 then ns else CleanedAt(v, CleanedEach(v, ns, ids, n - 1), ids[n - 1])
  }

  /** One name of the basic pass: the tags of that name found at that moment, cleaned one
      after the other. */
  function BasicStep(v: Variant, ns: seq<Node>, name: string): seq<Node> {
    var ids := Found(ns, name);
    CleanedEach(v, ns, ids, |ids|)
  }

  /** The names `order[..b]` taken in turn. */
  function BasicPass(v: Variant, ns: seq<Node>, order: seq<string>, b: nat): seq<Node>
    requires b <= |order|
  {
    if b == 0 then ns else BasicStep(v, BasicPass(v, ns, order, b - 1), order[b - 1])
  }

  /** A document's state between passes: its nodes and the identity counter. */
  datatype Stage = Stage(nodes: seq<Node>, next: nat)

  /** The lists with identities `ids[..n]` replaced one after the other, each taking its
      new identities from the counter as it then stands. */
  function ListPass(ns: seq<Node>, ids: seq<nat>, n: nat, next: nat): Stage
    requires n <= |ids|
  {
    if n == 0 then Stage(ns, next)
    else
      var s := ListPass(ns, ids, n - 1, next);
      Stage(SimplifiedAt(s.nodes, ids[n - 1], s.next), s.next + SimplifyCost(s.nodes, ids[n - 1]))
  }

  /** `clean_document`: comments removed, then the basic pass in the order `order`, then
      every `ul` found after it replaced by its simplified version. */
  function CleanedDocument(v: Variant, order: seq<string>, ns: seq<Node>, next: nat): Stage {
    var cleaned := BasicPass(v, StripComments(ns), order, |order|);
    var lists := Found(cleaned, "ul");
    ListPass(cleaned, lists, |lists|, next)
  }

  /** Cleaning tags one after the other changes no stripped string. */
  lemma {:induction false} CleanedEachText(v: Variant, ns: seq<Node>, ids: seq<nat>, n: nat)
    requires n <= |ids|
    ensures StrippedStrings(CleanedEach(v, ns, ids, n)) == StrippedStrings(ns)
  {
    if n > 0 {
      var before := CleanedEach(v, ns, ids, n - 1);
      CleanedEachText(v, ns, ids, n - 1);
      CleanedAtText(v, before, ids[n - 1]);
    }
  }

  /** Cleaning tags one after the other brings in no comment. */
  lemma {:induction false} CleanedEachClean(v: Variant, ns: seq<Node>, ids: seq<nat>, n: nat)
    requires n <= |ids| && Everywhere(ns, NotComment())
    ensures Everywhere(CleanedEach(v, ns, ids, n), NotComment())
  {
    if n > 0 {
      var before := CleanedEach(v, ns, ids, n - 1);
      CleanedEachClean(v, ns, ids, n - 1);
      CleanedAtClean(v, before, ids[n - 1]);
    }
  }

  /** The basic pass, whatever the order of the names, changes no stripped string. */
  lemma BasicPassText(v: Variant, ns: seq<Node>, order: seq<string>, b: nat)
    requires b <= |order|
    ensures StrippedStrings(BasicPass(v, ns, order, b)) == StrippedStrings(ns)
  {
    var k := 0;
    while k < b
      invariant k <= b
      invariant StrippedStrings(BasicPass(v, ns, order, k)) == StrippedStrings(ns)
    {
      BasicPassTextStep(v, ns, order, k);
      k := k + 1;
    }
  }

  lemma BasicPassTextStep(v: Variant, ns: seq<Node>, order: seq<string>, k: nat)
    requires k < |order| && StrippedStrings(BasicPass(v, ns, order, k)) == StrippedStrings(ns)
    ensures StrippedStrings(BasicPass(v, ns, order, k + 1)) == StrippedStrings(ns)
  {
    BasicStepText(v, BasicPass(v, ns, order, k), order[k]);
  }

  lemma BasicStepText(v: Variant, ns: seq<Node>, name: string)
    ensures StrippedStrings(BasicStep(v, ns, name)) == StrippedStrings(ns)
  {
    var ids := Found(ns, name);
    CleanedEachText(v, ns, ids, |ids|);
  }

  /** The basic pass brings in no comment. */
  lemma {:induction false} BasicPassClean(v: Variant, ns: seq<Node>, order: seq<string>, b: nat)
    requires b <= |order| && Everywhere(ns, NotComment())
    ensures Everywhere(BasicPass(v, ns, order, b), NotComment())
  {
    if b > 0 {
      var before := BasicPass(v, ns, order, b - 1);
      BasicPassClean(v, ns, order, b - 1);
      BasicStepClean(v, before, order[b - 1]);
    }
  }

  lemma BasicStepClean(v: Variant, ns: seq<Node>, name: string)
    requires Everywhere(ns, NotComment())
    ensures Everywhere(BasicStep(v, ns, name), NotComment())
  {
    var ids := Found(ns, name);
    CleanedEachClean(v, ns, ids, |ids|);
  }

  /** Replacing lists one after the other brings in no comment and never lowers the counter. */
  lemma {:induction false} ListPassKeeps(ns: seq<Node>, ids: seq<nat>, n: nat, next: nat)
    requires n <= |ids|
    ensures ListPass(ns, ids, n, next).next >= next
    ensures Everywhere(ns, NotComment()) ==> Everywhere(ListPass(ns, ids, n, next).nodes, NotComment())
  {
    if n > 0 {
      var s := ListPass(ns, ids, n - 1, next);
      ListPassKeeps(ns, ids, n - 1, next);
      SimplifiedAtKeeps(s.nodes, ids[n - 1], s.next);
    }
  }

  /** The cleaned document holds no comment at any depth, and before its lists are
      simplified it shows exactly the stripped strings of the original. */
  lemma CleanedDocumentClean(v: Variant, order: seq<string>, ns: seq<Node>, next: nat)
    ensures Everywhere(CleanedDocument(v, order, ns, next).nodes, NotComment())
    ensures CleanedDocument(v, order, ns, next).next >= next
    ensures StrippedStrings(BasicPass(v, StripComments(ns), order, |order|)) == StrippedStrings(ns)
  {
    var stripped := StripComments(ns);
    var cleaned := BasicPass(v, stripped, order, |order|);
    var lists := Found(cleaned, "ul");
    StripCommentsClean(ns);
    StripCommentsText(ns);
    BasicPassText(v, stripped, order, |order|);
    BasicPassClean(v, stripped, order, |order|);
    ListPassKeeps(cleaned, lists, |lists|, next);
  }

  /** The body of the outer loop of `clean_document`: every tag named `name`, found before
      any of them is cleaned, is cleaned in document order. */
  method CleanElements(soup: Soup, v: Variant, name: string)
    requires soup.Valid()
    modifies soup
    ensures soup.Valid() && soup.nextId == old(soup.nextId)
    ensures soup.root == old(soup.root).(children := BasicStep(v, old(soup.root.children), name))
  {
    var ids := TagIds(FindAll(soup.root.children, Selector(name, None)));
    for j := 0 to |ids|
      invariant soup.Valid() && soup.nextId == old(soup.nextId)
      invariant soup.root == old(soup.root).(children := CleanedEach(v, old(soup.root.children), ids, j))
    {
      CleanById(soup, v, ids[j]);
    }
  }

  /** The outer loop of `clean_document`: the basic element names taken in the order
      `order`, and for each the tags `find_all` returns cleaned one by one. Each
      `find_all` is a snapshot taken before its tags are cleaned. */
  method CleanBasicElements(soup: Soup, v: Variant, order: seq<string>)
    requires soup.Valid()
    modifies soup
    ensures soup.Valid() && soup.nextId == old(soup.nextId)
    ensures soup.root == old(soup.root).(children := BasicPass(v, old(soup.root.children), order, |order|))
  {
    for b := 0 to |order|
      invariant soup.Valid() && soup.nextId == old(soup.nextId)
      invariant soup.root == old(soup.root).(children := BasicPass(v, old(soup.root.children), order, b))
    {
      CleanElements(soup, v, order[b]);
    }
  }


  /** The last pass of `clean_document`: every `ul` tag, from a snapshot taken before any
      is replaced, is replaced by its simplified version. */
  method SimplifyLists(soup: Soup)
    requires soup.Valid()
    modifies soup
    ensures soup.Valid()
    ensures var s := ListPass(old(soup.root.children), Found(old(soup.root.children), "ul"),
                              |Found(old(soup.root.children), "ul")|, old(soup.nextId));
            soup.root == old(soup.root).(children := s.nodes) && soup.nextId == s.next
  {
    var ids := TagIds(FindAll(soup.root.children, Selector("ul", None)));
    for j := 0 to |ids|
      invariant soup.Valid()
      invariant var s := ListPass(old(soup.root.children), ids, j, old(soup.nextId));
                soup.root == old(soup.root).(children := s.nodes) && soup.nextId == s.next
    {
      SimplifyById(soup, ids[j]);
    }
  }

  /** `clean_document(soup)`: comments removed, the basic elements cleaned, then the
      lists simplified. `order` is the (unspecified) iteration order of the name set. */
  method CleanDocument(soup: Soup, v: Variant, order: seq<string>)
    requires soup.Valid()
    requires forall k :: 0 <= k < |order| ==> order[k] in BasicElements
    requires forall name :: name in BasicElements ==> name in order
    requires forall i, j :: 0 <= i < j < |order| ==> order[i] != order[j]
    modifies soup
    ensures soup.Valid()
    ensures var s := CleanedDocument(v, order, old(soup.root.children), old(soup.nextId));
            soup.root == old(soup.root).(children := s.nodes) && soup.nextId == s.next
    ensures Everywhere(soup.root.children, NotComment())
  {
    RemoveComments(soup);
    CleanBasicElements(soup, v, order);
    SimplifyLists(soup);
    CleanedDocumentClean(v, order, old(soup.root.children), old(soup.nextId));
  }
}
