/** The parsed document: an owned tree of strings, comments and elements, the
    searches the pipeline uses on it (`find`, `find_all`, the text getters), and
    the `Soup` object that owns the tree and allocates new tags. */
module Html {
  import opened Wrappers
  import opened Strings

  /** A node of the tree. `id` stands for the identity of a tag object: the
      passes that hold on to tags across mutations refer to them by it. */
  datatype Node =
    | TextNode(text: string)
    | CommentNode(text: string)
    | Element(id: nat, name: string, attrs: map<string, string>, children: seq<Node>)

  /** Length of the run of non-whitespace characters that starts `s`. */
  function WordLength(s: string): (n: nat)
    ensures n <= |s|
    ensures forall i :: 0 <= i < n ==> !IsSpaceChar(s[i])
    ensures n < |s| ==> IsSpaceChar(s[n])
  {
    if |s| == 0 || IsSpaceChar(s[0]) then 0 else 1 + WordLength(s[1..])
  }

  /** The whitespace-separated words of `s`: how a `class` value is seen as a list of classes. */
  function Words(s: string): (r: seq<string>)
    ensures forall k :: 0 <= k < |r| ==> |r[k]| > 0
    decreases |s|
  {
    if |s| == 0 then []
    else if IsSpaceChar(s[0]) then Words(s[1..])
    else
      var n := WordLength(s);
      [s[..n]] + Words(s[n..])
  }

  /** The element carries class `c` among its classes. */
  predicate HasClassToken(attrs: map<string, string>, c: string) {
    "class" in attrs && c in Words(attrs["class"])
  }

  /** The query of `find(name)` / `find(name, class_=c)`. */
  datatype Selector = Selector(name: string, cls: Option<string>)

  predicate Matches(n: Node, sel: Selector) {
    && n.Element? && n.name == sel.name
    && (sel.cls.Some? ==> HasClassToken(n.attrs, sel.cls.value))
  }

  /** `find_all(sel)` below a node whose children are `ns`: every matching
      descendant, in document order. */
  function FindAll(ns: seq<Node>, sel: Selector): (r: seq<Node>)
    ensures forall k :: 0 <= k < |r| ==> Matches(r[k], sel)
  {
    if ns == [] then []
    else
      (if Matches(ns[0], sel) then [ns[0]] else [])
      + (if ns[0].Element? then FindAll(ns[0].children, sel) else [])
      + FindAll(ns[1..], sel)
  }

  /** `find_all(True, recursive=False)` (name `None`) and `find_all(name, recursive=False)`:
      the direct element children, in order. */
  function ChildElements(ns: seq<Node>, name: Option<string>): (r: seq<Node>)
    ensures |r| <= |ns|
    ensures forall k :: 0 <= k < |r| ==> r[k].Element? && (name.Some? ==> r[k].name == name.value)
  {
    if ns == [] then []
    else
      (if ns[0].Element? && (name.Some? ==> ns[0].name == name.value) then [ns[0]] else [])
      + ChildElements(ns[1..], name)
  }

  /** `find_all` misses nothing: every matching node below `ns` is among its results. */
  lemma {:induction false} FindAllComplete(ns: seq<Node>, sel: Selector, p: seq<nat>)
    requires ValidPath(ns, p) && Matches(At(ns, p), sel)
    ensures At(ns, p) in FindAll(ns, sel)
    decreases |p|, |ns|
  {
    var i := p[0];
    var rest := FindAll(ns[1..], sel);
    assert FindAll(ns, sel) == (if Matches(ns[0], sel) then [ns[0]] else [])
      + (if ns[0].Element? then FindAll(ns[0].children, sel) else []) + rest;
    if i == 0 && |p| == 1 {
    } else if i == 0 {
      FindAllComplete(ns[0].children, sel, p[1..]);
    } else {
      var q := [i - 1] + p[1..];
      assert q[1..] == p[1..];
      assert ns[1..][q[0]] == ns[i];
      assert At(ns[1..], q) == At(ns, p);
      FindAllComplete(ns[1..], sel, q);
    }
  }

  /** `find_all(name, recursive=False)` misses nothing: every direct child tag of that name is among its results. */
  lemma {:induction false} ChildElementsComplete(ns: seq<Node>, name: Option<string>, k: nat)
    requires k < |ns| && ns[k].Element? && (name.Some? ==> ns[k].name == name.value)
    ensures ns[k] in ChildElements(ns, name)
    decreases k
  {
    if k > 0 {
      assert ns[1..][k - 1] == ns[k];
      ChildElementsComplete(ns[1..], name, k - 1);
    }
  }

  /** A path from a child list to one node: child indexes, outermost first. */
  predicate ValidPath(ns: seq<Node>, p: seq<nat>) {
    && |p| > 0 && p[0] < |ns|
    && (|p| > 1 ==> ns[p[0]].Element? && ValidPath(ns[p[0]].children, p[1..]))
  }

  function At(ns: seq<Node>, p: seq<nat>): Node
    requires ValidPath(ns, p)
  {
    if |p| == 1 then ns[p[0]] else At(ns[p[0]].children, p[1..])
  }

  /** `extract()` of the node at `p`: the tree without it. */
  function RemoveAt(ns: seq<Node>, p: seq<nat>): seq<Node>
    requires ValidPath(ns, p)
  {
    if |p| == 1 then ns[..p[0]] + ns[p[0] + 1..]
    else ns[p[0] := ns[p[0]].(children := RemoveAt(ns[p[0]].children, p[1..]))]
  }

  /** `find(sel)`: the path of the first matching descendant in document order. */
  function FindFirst(ns: seq<Node>, sel: Selector): (r: Option<seq<nat>>)
    ensures r.Some? ==> ValidPath(ns, r.value) && Matches(At(ns, r.value), sel)
  {
    if ns == [] then None
    else if Matches(ns[0], sel) then Some([0])
    else
      var inner := if ns[0].Element? then FindFirst(ns[0].children, sel) else None;
      if inner.Some? then
        assert ([0] + inner.value)[1..] == inner.value;
        Some([0] + inner.value)
      else
        match FindFirst(ns[1..], sel)
        case None => None
        case Some(q) =>
          var p := [q[0] + 1] + q[1..];
          assert p[1..] == q[1..];
          assert ns[p[0]] == ns[1..][q[0]];
          assert |q| > 1 ==> At(ns, p) == At(ns[1..][q[0]].children, q[1..]);
          Some(p)
  }

  /** `find` is the first result of `find_all`: absent exactly when `find_all` finds nothing. */
  lemma {:induction false} FindFirstIsFirstOfAll(ns: seq<Node>, sel: Selector)
    ensures FindFirst(ns, sel).None? <==> FindAll(ns, sel) == []
    ensures FindFirst(ns, sel).Some? ==> At(ns, FindFirst(ns, sel).value) == FindAll(ns, sel)[0]
  {
    if ns != [] && !Matches(ns[0], sel) {
      if ns[0].Element? {
        FindFirstIsFirstOfAll(ns[0].children, sel);
      }
      FindFirstIsFirstOfAll(ns[1..], sel);
      var inner := if ns[0].Element? then FindFirst(ns[0].children, sel) else None;
      if inner.None? && FindFirst(ns[1..], sel).Some? {
        var q := FindFirst(ns[1..], sel).value;
        var p := [q[0] + 1] + q[1..];
        assert FindFirst(ns, sel) == Some(p);
        assert p[1..] == q[1..];
        if |q| > 1 {
          assert At(ns, p) == At(ns[1..][q[0]].children, q[1..]);
        }
      }
    }
  }

  /** The text strings under `ns` in document order; comments are not among them. */
  function TextsOf(ns: seq<Node>): seq<string> {
    if ns == [] then []
    else
      (match ns[0]
       case TextNode(t) => [t]
       case CommentNode(_) => []
       case Element(_, _, _, kids) => TextsOf(kids))
      + TextsOf(ns[1..])
  }

  /** The strings stripped of surrounding whitespace, the ones left empty dropped. */
  function StripAll(ts: seq<string>): seq<string> {
    if ts == [] then [] else Kept(ts[0]) + StripAll(ts[1..])
  }

  /** What one string contributes: itself stripped, or nothing when only whitespace is left. */
  function Kept(t: string): seq<string> {
    if Strip(t) == "" then [] else [Strip(t)]
  }

  /** Every string kept is non-empty and stripped, and none is added. */
  lemma {:induction false} StripAllTrimmed(ts: seq<string>)
    ensures forall k :: 0 <= k < |StripAll(ts)| ==> |StripAll(ts)[k]| > 0 && Trimmed(StripAll(ts)[k])
    ensures |StripAll(ts)| <= |ts|
  {
    if ts != [] {
      StripAllTrimmed(ts[1..]);
    }
  }

  /** `stripped_strings` of a tag whose children are `ns`. */
  function StrippedStrings(ns: seq<Node>): seq<string> {
    StripAll(TextsOf(ns))
  }

  lemma {:induction false} TextsOfAppend(a: seq<Node>, b: seq<Node>)
    ensures TextsOf(a + b) == TextsOf(a) + TextsOf(b)
  {
    if a == [] {
      assert a + b == b;
    } else {
      assert (a + b)[0] == a[0];
      assert (a + b)[1..] == a[1..] + b;
      TextsOfAppend(a[1..], b);
    }
  }

  lemma {:induction false} StripAllAppend(a: seq<string>, b: seq<string>)
    ensures StripAll(a + b) == StripAll(a) + StripAll(b)
  {
    if a == [] {
      assert a + b == b;
    } else {
      assert (a + b)[0] == a[0];
      assert (a + b)[1..] == a[1..] + b;
      StripAllAppend(a[1..], b);
    }
  }

  /** The stripped strings of a list are those of its first part, then those of the rest. */
  lemma StrippedStringsAppend(a: seq<Node>, b: seq<Node>)
    ensures StrippedStrings(a + b) == StrippedStrings(a) + StrippedStrings(b)
  {
    TextsOfAppend(a, b);
    StripAllAppend(TextsOf(a), TextsOf(b));
  }

  /** The stripped strings of a non-empty list are those of its head, then those of its tail. */
  lemma StrippedStringsCons(ns: seq<Node>)
    requires ns != []
    ensures StrippedStrings(ns) == StrippedStrings([ns[0]]) + StrippedStrings(ns[1..])
  {
    assert ns == [ns[0]] + ns[1..];
    StrippedStringsAppend([ns[0]], ns[1..]);
  }

  /** A tag contributes the stripped strings of its children. */
  lemma StrippedStringsElement(n: Node)
    requires n.Element?
    ensures StrippedStrings([n]) == StrippedStrings(n.children)
  {
    assert [n][1..] == [];
    assert TextsOf([n]) == TextsOf(n.children) + TextsOf([]);
    assert TextsOf([n]) == TextsOf(n.children);
  }

  /** The children of a tag; a string has none. */
  function ChildrenOf(n: Node): seq<Node> {
    if n.Element? then n.children else []
  }

  /** `get_text(separator=sep, strip=True)` of a tag whose children are `ns`. */
  function GetText(ns: seq<Node>, sep: string): string {
    Join(StrippedStrings(ns), sep)
  }

  /** The text is stripped at both ends, since each joined string is. */
  lemma GetTextTrimmed(ns: seq<Node>, sep: string)
    ensures Trimmed(GetText(ns, sep))
  {
    StripAllTrimmed(TextsOf(ns));
    JoinTrimmed(StrippedStrings(ns), sep);
  }

  /** A node by itself, the children of a tag left out. */
  function Shallow(n: Node): (r: Node)
    ensures !r.Element? || r.children == []
  {
    if n.Element? then n.(children := []) else n
  }

  /** `P` holds of every node of `ns` by itself, at every depth. */
  predicate Everywhere(ns: seq<Node>, P: Node -> bool)
    decreases ns
  {
    forall k :: 0 <= k < |ns| ==> P(Shallow(ns[k])) && (ns[k].Element? ==> Everywhere(ns[k].children, P))
  }

  /** Of a single node: it satisfies `P`, and so does everything below it. */
  lemma EverywhereSingle(n: Node, P: Node -> bool)
    ensures Everywhere([n], P) <==> P(Shallow(n)) && (n.Element? ==> Everywhere(n.children, P))
  {
    assert [n][0] == n;
  }

  lemma EverywhereAppend(a: seq<Node>, b: seq<Node>, P: Node -> bool)
    ensures Everywhere(a + b, P) <==> Everywhere(a, P) && Everywhere(b, P)
  {
    if Everywhere(a, P) && Everywhere(b, P) {
      forall k | 0 <= k < |a + b|
        ensures P(Shallow((a + b)[k])) && ((a + b)[k].Element? ==> Everywhere((a + b)[k].children, P))
      {
        if k >= |a| {
          assert (a + b)[k] == b[k - |a|];
        }
      }
    }
    if Everywhere(a + b, P) {
      forall k | 0 <= k < |a| ensures P(Shallow(a[k])) && (a[k].Element? ==> Everywhere(a[k].children, P)) {
        assert (a + b)[k] == a[k];
      }
      forall k | 0 <= k < |b| ensures P(Shallow(b[k])) && (b[k].Element? ==> Everywhere(b[k].children, P)) {
        assert (a + b)[k + |a|] == b[k];
      }
    }
  }

  /** Removing a node keeps a property of every node. */
  lemma {:induction false} EverywhereRemoveAt(ns: seq<Node>, p: seq<nat>, P: Node -> bool)
    requires ValidPath(ns, p) && Everywhere(ns, P)
    ensures Everywhere(RemoveAt(ns, p), P)
  {
    var i := p[0];
    if |p| == 1 {
      assert ns == ns[..i] + ns[i..];
      EverywhereAppend(ns[..i], ns[i..], P);
      assert ns[i..] == [ns[i]] + ns[i + 1..];
      EverywhereAppend([ns[i]], ns[i + 1..], P);
      EverywhereAppend(ns[..i], ns[i + 1..], P);
    } else {
      EverywhereRemoveAt(ns[i].children, p[1..], P);
      assert Shallow(ns[i].(children := RemoveAt(ns[i].children, p[1..]))) == Shallow(ns[i]);
    }
  }

  lemma {:induction false} EverywhereAt(ns: seq<Node>, p: seq<nat>, P: Node -> bool)
    requires ValidPath(ns, p) && Everywhere(ns, P)
    ensures Everywhere([At(ns, p)], P)
  {
    EverywhereSingle(At(ns, p), P);
    if |p| > 1 {
      EverywhereAt(ns[p[0]].children, p[1..], P);
    }
  }

  /** The ids of all tags are below `bound`. */
  function IdBelow(bound: nat): Node -> bool {
    (n: Node) => !n.Element? || n.id < bound
  }

  predicate IdsBelow(ns: seq<Node>, bound: nat) {
    Everywhere(ns, IdBelow(bound))
  }

  lemma {:induction false} IdsBelowMono(ns: seq<Node>, bound: nat, bound': nat)
    requires IdsBelow(ns, bound) && bound <= bound'
    ensures IdsBelow(ns, bound')
    decreases ns
  {
    forall k | 0 <= k < |ns| ensures IdBelow(bound')(Shallow(ns[k])) && (ns[k].Element? ==> IdsBelow(ns[k].children, bound')) {
      if ns[k].Element? {
        IdsBelowMono(ns[k].children, bound, bound');
      }
    }
  }

  /** The ids of a single element: its own, then those of its children. */
  lemma IdsBelowElement(n: Node, bound: nat)
    requires n.Element?
    ensures IdsBelow([n], bound) <==> n.id < bound && IdsBelow(n.children, bound)
  {
    EverywhereSingle(n, IdBelow(bound));
  }

  /** A list whose ids are below a bound stays so after a removal. */
  lemma IdsBelowRemoveAt(ns: seq<Node>, p: seq<nat>, bound: nat)
    requires ValidPath(ns, p) && IdsBelow(ns, bound)
    ensures IdsBelow(RemoveAt(ns, p), bound)
  {
    EverywhereRemoveAt(ns, p, IdBelow(bound));
  }

  /** `replace_with(n)` of the node at `p`: `n` in its place. */
  function ReplaceAt(ns: seq<Node>, p: seq<nat>, n: Node): (r: seq<Node>)
    requires ValidPath(ns, p)
    ensures |r| == |ns|
  {
    if |p| == 1 then ns[p[0] := n]
    else ns[p[0] := ns[p[0]].(children := ReplaceAt(ns[p[0]].children, p[1..], n))]
  }

  /** The replaced node is where the old one was. */
  lemma {:induction false} ReplaceAtAt(ns: seq<Node>, p: seq<nat>, n: Node)
    requires ValidPath(ns, p)
    ensures ValidPath(ReplaceAt(ns, p, n), p) && At(ReplaceAt(ns, p, n), p) == n
  {
    if |p| > 1 {
      ReplaceAtAt(ns[p[0]].children, p[1..], n);
    }
  }

  /** Two paths that part ways at some index: neither leads into the other's node. */
  predicate Diverge(p: seq<nat>, q: seq<nat>) {
    |p| > 0 && |q| > 0 && (p[0] != q[0] || Diverge(p[1..], q[1..]))
  }

  /** `replace_with` touches nothing else: every path that parts ways with `p` still
      leads to the node it led to before. */
  lemma {:induction false} ReplaceAtElsewhere(ns: seq<Node>, p: seq<nat>, n: Node, q: seq<nat>)
    requires ValidPath(ns, p) && ValidPath(ns, q) && Diverge(p, q)
    ensures ValidPath(ReplaceAt(ns, p, n), q) && At(ReplaceAt(ns, p, n), q) == At(ns, q)
  {
    var r := ReplaceAt(ns, p, n);
    if p[0] != q[0] {
      assert r[q[0]] == ns[q[0]];
    } else {
      ReplaceAtElsewhere(ns[p[0]].children, p[1..], n, q[1..]);
    }
  }

  /** Putting in a node that has the property everywhere keeps it everywhere. */
  lemma {:induction false} EverywhereReplaceAt(ns: seq<Node>, p: seq<nat>, n: Node, P: Node -> bool)
    requires ValidPath(ns, p) && Everywhere(ns, P) && Everywhere([n], P)
    ensures Everywhere(ReplaceAt(ns, p, n), P)
  {
    var i := p[0];
    var x := if |p| == 1 then n else ns[i].(children := ReplaceAt(ns[i].children, p[1..], n));
    if |p| == 1 {
      EverywhereSingle(n, P);
    } else {
      EverywhereReplaceAt(ns[i].children, p[1..], n, P);
      assert Shallow(x) == Shallow(ns[i]);
    }
    assert ReplaceAt(ns, p, n) == ns[i := x];
  }

  /** A list seen as the part before position `i`, the node at `i`, and the part after. */
  lemma StrippedStringsAround(ns: seq<Node>, i: nat, x: Node)
    requires i < |ns|
    ensures StrippedStrings(ns[i := x]) == StrippedStrings(ns[..i]) + StrippedStrings([x]) + StrippedStrings(ns[i + 1..])
  {
    assert ns[i := x] == ns[..i] + ([x] + ns[i + 1..]);
    StrippedStringsAppend(ns[..i], [x] + ns[i + 1..]);
    StrippedStringsAppend([x], ns[i + 1..]);
  }

  /** Swapping one node for another with the same stripped strings keeps those of the list. */
  lemma StrippedStringsSwap(ns: seq<Node>, i: nat, x: Node)
    requires i < |ns| && StrippedStrings([x]) == StrippedStrings([ns[i]])
    ensures StrippedStrings(ns[i := x]) == StrippedStrings(ns)
  {
    StrippedStringsAround(ns, i, x);
    StrippedStringsAround(ns, i, ns[i]);
    assert ns[i := ns[i]] == ns;
  }

  /** Putting in a node with the same stripped strings leaves the stripped strings of the whole unchanged. */
  lemma {:induction false} StrippedStringsReplaceAt(ns: seq<Node>, p: seq<nat>, n: Node)
    requires ValidPath(ns, p) && StrippedStrings([n]) == StrippedStrings([At(ns, p)])
    ensures StrippedStrings(ReplaceAt(ns, p, n)) == StrippedStrings(ns)
  {
    var i := p[0];
    if |p| == 1 {
      StrippedStringsSwap(ns, i, n);
    } else {
      var x := ns[i].(children := ReplaceAt(ns[i].children, p[1..], n));
      StrippedStringsReplaceAt(ns[i].children, p[1..], n);
      StrippedStringsElement(x);
      StrippedStringsElement(ns[i]);
      StrippedStringsSwap(ns, i, x);
    }
  }

  /** Putting a node whose identities are below `bound` into a tree whose identities are
      below `bound` keeps them all below `bound`. */
  lemma IdsBelowReplaceAt(ns: seq<Node>, p: seq<nat>, n: Node, bound: nat)
    requires ValidPath(ns, p) && IdsBelow(ns, bound) && IdsBelow([n], bound)
    ensures IdsBelow(ReplaceAt(ns, p, n), bound)
  {
    EverywhereReplaceAt(ns, p, n, IdBelow(bound));
  }

  /** The path of the first tag with identity `id`, in document order. */
  function FindById(ns: seq<Node>, id: nat): (r: Option<seq<nat>>)
    ensures r.Some? ==> ValidPath(ns, r.value) && At(ns, r.value).Element? && At(ns, r.value).id == id
  {
    if ns == [] then None
    else if ns[0].Element? && ns[0].id == id then Some([0])
    else
      var inner := if ns[0].Element? then FindById(ns[0].children, id) else None;
      if inner.Some? then
        assert ([0] + inner.value)[1..] == inner.value;
        Some([0] + inner.value)
      else
        match FindById(ns[1..], id)
        case None => None
        case Some(q) =>
          var p := [q[0] + 1] + q[1..];
          assert p[1..] == q[1..];
          assert ns[p[0]] == ns[1..][q[0]];
          assert |q| > 1 ==> At(ns, p) == At(ns[1..][q[0]].children, q[1..]);
          Some(p)
  }

  /** The search by identity misses nothing: when some tag below `ns` has identity `id`,
      a tag with it is found, so `None` means that no tag in the tree has it. */
  lemma {:induction false} FindByIdComplete(ns: seq<Node>, id: nat, p: seq<nat>)
    requires ValidPath(ns, p) && At(ns, p).Element? && At(ns, p).id == id
    ensures FindById(ns, id).Some?
    decreases |p|, |ns|
  {
    var i := p[0];
    if ns[0].Element? && ns[0].id == id {
    } else if i == 0 {
      FindByIdComplete(ns[0].children, id, p[1..]);
    } else {
      var q := [i - 1] + p[1..];
      assert q[1..] == p[1..];
      assert ns[1..][q[0]] == ns[i];
      assert At(ns[1..], q) == At(ns, p);
      FindByIdComplete(ns[1..], id, q);
    }
  }

  /** A path followed by a path inside the node it reaches is a path. */
  lemma {:induction false} PathAppend(ns: seq<Node>, p: seq<nat>, q: seq<nat>)
    requires ValidPath(ns, p) && At(ns, p).Element? && ValidPath(At(ns, p).children, q)
    ensures ValidPath(ns, p + q) && At(ns, p + q) == At(At(ns, p).children, q)
  {
    assert (p + q)[0] == p[0];
    if |p| == 1 {
      assert (p + q)[1..] == q;
    } else {
      assert (p + q)[1..] == p[1..] + q;
      PathAppend(ns[p[0]].children, p[1..], q);
    }
  }

  /** Removing a node below the one at `p` leaves `p` in place, that node losing the descendant. */
  lemma {:induction false} RemoveBelow(ns: seq<Node>, p: seq<nat>, q: seq<nat>)
    requires ValidPath(ns, p) && At(ns, p).Element? && ValidPath(At(ns, p).children, q)
    ensures ValidPath(ns, p + q)
    ensures ValidPath(RemoveAt(ns, p + q), p)
    ensures At(RemoveAt(ns, p + q), p) == At(ns, p).(children := RemoveAt(At(ns, p).children, q))
  {
    PathAppend(ns, p, q);
    assert (p + q)[0] == p[0];
    if |p| == 1 {
      assert (p + q)[1..] == q;
    } else {
      assert (p + q)[1..] == p[1..] + q;
      RemoveBelow(ns[p[0]].children, p[1..], q);
    }
  }

  /** The parsed document (bs4's `BeautifulSoup` object): a `[document]` tag owning
      the tree, and the counter from which new tags take their identity. */
  class Soup {
    var root: Node
    var nextId: nat

    ghost predicate Valid()
      reads this
    {
      root.Element? && root.name == "[document]" && root.id < nextId && IdsBelow(root.children, nextId)
    }

    /** A document whose parsed top-level nodes are `contents`; parsing itself is not modelled. */
    constructor (contents: seq<Node>, next: nat)
      requires 0 < next && IdsBelow(contents, next)
      ensures Valid()
      ensures root == Element(0, "[document]", map[], contents) && nextId == next
    {
      root := Element(0, "[document]", map[], contents);
      nextId := next;
    }

    /** Identities for `n` tags made outside the document, by another `BeautifulSoup`
        object: the next `n` values of the counter, distinct from every tag in the tree. */
    method Allocate(n: nat) returns (first: nat)
      requires Valid()
      modifies this
      ensures Valid() && root == old(root) && nextId == old(nextId) + n
      ensures first == old(nextId)
    {
      first := nextId;
      IdsBelowMono(root.children, nextId, nextId + n);
      nextId := nextId + n;
    }
  }
}
