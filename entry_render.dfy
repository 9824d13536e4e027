/** The two renderings of a dictionary entry: the stand-alone HTML page and the
    Kindle XHTML fragment whose `<idx:orth>` carries the inflection index.
    Each rendering is a method that appends template pieces in loops, as the
    program does, proved equal to a function that names every block. */
module EntryRender {
  import opened Wrappers
  import opened Strings
  import opened EntryModel

  // ---------------------------------------------------------------------------
  // Concatenation of rendered pieces

  /** The pieces written one after another. */
  function Concat(ps: seq<string>): string {
    if ps == [] then "" else Concat(ps[..|ps| - 1]) + ps[|ps| - 1]
  }

  lemma Assoc(a: string, b: string, c: string)
    ensures a + b + c == a + (b + c)
  {
  }

  lemma Assoc4(a: string, b: string, c: string, d: string)
    ensures a + b + c + d == a + (b + c + d)
  {
  }

  lemma Assoc5(a: string, b: string, c: string, d: string, e: string)
    ensures a + b + c + d + e == a + (b + (c + d + e))
  {
  }

  lemma ConcatSnoc(ps: seq<string>, p: string)
    ensures Concat(ps + [p]) == Concat(ps) + p
  {
    assert (ps + [p])[..|ps|] == ps;
  }

  // ---------------------------------------------------------------------------
  // The inflection list of the page

  /** `str(value)` of an attribute: the string, or `None` when unset. */
  function ValueText(v: Option<string>): string {
    match v
    case Some(s) => s
    case None => "None"
  }

  /** An attribute name the renderers skip: one that starts with `_`. */
  predicate IsPrivate(name: string) {
    |name| > 0 && name[0] == '_'
  }

  /** The label of an attribute: underscores turned into spaces, then capitalised. */
  function DisplayName(name: string): (r: string)
    ensures |r| == |name| && forall i :: 1 <= i < |r| ==> r[i] != '_'
  {
    var t := ReplaceChar(name, '_', ' ');
    assert forall i :: 0 <= i < |t| ==> t[i] != '_';
    assert forall i :: 1 <= i < |t| ==> Capitalize(t)[i] == LowerChar(t[i]);
    Capitalize(t)
  }

  function InflectionItem(f: Field): string {
    "<li class=\"inflection-item\">" + DisplayName(f.name) + ": " + ValueText(f.value) + "</li>"
  }

  /** One list item per attribute that is not private, in attribute order. */
  function InflectionLines(fs: seq<Field>): (r: seq<string>)
    ensures |r| <= |fs|
  {
    if fs == [] then []
    else
      var f := fs[|fs| - 1];
      InflectionLines(fs[..|fs| - 1]) + (if IsPrivate(f.name) then [] else [InflectionItem(f)])
  }

  /** No attribute of an inflection table is private. */
  lemma FieldNamesPublic(kind: InflectionKind)
    ensures forall i :: 0 <= i < |FieldNames(kind)| ==> !IsPrivate(FieldNames(kind)[i])
  {
    var names := FieldNames(kind);
    forall i | 0 <= i < |names| ensures !IsPrivate(names[i]) {
      match kind
      case NounInflections =>
      case VerbInflections =>
      case DeterminativeInflections =>
      case AdjectiveInflections =>
    }
  }

  /** With no private attribute, there is one item per attribute, in order. */
  lemma {:induction false} InflectionLinesPublic(fs: seq<Field>)
    requires forall i :: 0 <= i < |fs| ==> !IsPrivate(fs[i].name)
    ensures |InflectionLines(fs)| == |fs|
    ensures forall i :: 0 <= i < |fs| ==> InflectionLines(fs)[i] == InflectionItem(fs[i])
  {
    if fs != [] {
      InflectionLinesPublic(fs[..|fs| - 1]);
    }
  }

  /** The page lists every attribute of a constructed table, unset ones as `None`. */
  lemma InflectionLinesOfTable(infl: Inflections)
    requires WellFormedInflections(infl)
    ensures |InflectionLines(infl.fields)| == |FieldNames(infl.kind)|
    ensures forall i :: 0 <= i < |infl.fields| ==>
              InflectionLines(infl.fields)[i] ==
                "<li class=\"inflection-item\">" + DisplayName(FieldNames(infl.kind)[i]) + ": "
                + ValueText(infl.fields[i].value) + "</li>"
  {
    FieldNamesPublic(infl.kind);
    InflectionLinesPublic(infl.fields);
  }

  // ---------------------------------------------------------------------------
  // The inflection index of the Kindle entry

  /** `<idx:iform>` of an attribute: its name with underscores as spaces, and its value. */
  function Iform(f: Field): string
    requires f.value.Some?
  {
    "<idx:iform name=\"" + ReplaceChar(f.name, '_', ' ') + "\" value=\"" + f.value.value + "\"></idx:iform>"
  }

  /** One index form per public attribute whose value is truthy, in attribute order. */
  function IformLines(fs: seq<Field>): (r: seq<string>)
    ensures |r| <= |fs|
  {
    if fs == [] then []
    else
      var f := fs[|fs| - 1];
      IformLines(fs[..|fs| - 1]) + (if !IsPrivate(f.name) && Truthy(f.value) then [Iform(f)] else [])
  }

  /** Each index form is that of an attribute with a truthy value. */
  lemma {:induction false} IformLinesSound(fs: seq<Field>)
    ensures forall k :: 0 <= k < |IformLines(fs)| ==>
              exists i :: 0 <= i < |fs| && Truthy(fs[i].value) && IformLines(fs)[k] == Iform(fs[i])
  {
    if fs != [] {
      var init := fs[..|fs| - 1];
      var f := fs[|fs| - 1];
      IformLinesSound(init);
      var lines := IformLines(fs);
      var n := |IformLines(init)|;
      var added := !IsPrivate(f.name) && Truthy(f.value);
      assert lines == IformLines(init) + (if added then [Iform(f)] else []);
      forall k | 0 <= k < |lines|
        ensures exists i :: 0 <= i < |fs| && Truthy(fs[i].value) && lines[k] == Iform(fs[i])
      {
        if k < n {
          assert lines[k] == IformLines(init)[k];
          var i :| 0 <= i < |init| && Truthy(init[i].value) && IformLines(init)[k] == Iform(init[i]);
          assert fs[i] == init[i];
          assert Truthy(fs[i].value) && lines[k] == Iform(fs[i]);
        } else {
          var w := |fs| - 1;
          assert Truthy(fs[w].value) && lines[k] == Iform(fs[w]);
        }
      }
      assert lines == IformLines(fs);
    } else {
      assert IformLines(fs) == [];
    }
  }

  /** Every public attribute with a truthy value has its index form. */
  lemma {:induction false} IformLinesComplete(fs: seq<Field>)
    ensures forall i :: 0 <= i < |fs| && !IsPrivate(fs[i].name) && Truthy(fs[i].value) ==> Iform(fs[i]) in IformLines(fs)
  {
    if fs != [] {
      var init := fs[..|fs| - 1];
      IformLinesComplete(init);
      forall i | 0 <= i < |fs| && !IsPrivate(fs[i].name) && Truthy(fs[i].value)
        ensures Iform(fs[i]) in IformLines(fs)
      {
        if i < |init| {
          assert fs[i] == init[i];
        }
      }
    }
  }

  /** An attribute `generate_inflections` lists: public, with a truthy value. */
  predicate Listed(f: Field) {
    !IsPrivate(f.name) && Truthy(f.value)
  }

  /** The positions of the listed attributes, in attribute order. */
  function ListedPositions(fs: seq<Field>): seq<nat> {
    if fs == [] then []
    else ListedPositions(fs[..|fs| - 1]) + (if Listed(fs[|fs| - 1]) then [|fs| - 1] else [])
  }

  /** The listed positions are in range, strictly increasing, and cover every listed attribute. */
  lemma {:induction false} ListedPositionsSpan(fs: seq<Field>)
    ensures forall k :: 0 <= k < |ListedPositions(fs)| ==>
              ListedPositions(fs)[k] < |fs| && Listed(fs[ListedPositions(fs)[k]])
    ensures forall k, l :: 0 <= k < l < |ListedPositions(fs)| ==> ListedPositions(fs)[k] < ListedPositions(fs)[l]
    ensures forall i :: 0 <= i < |fs| && Listed(fs[i]) ==> i in ListedPositions(fs)
  {
    if fs != [] {
      var init := fs[..|fs| - 1];
      ListedPositionsSpan(init);
      var pos := ListedPositions(fs);
      var pos0 := ListedPositions(init);
      assert pos == pos0 + (if Listed(fs[|fs| - 1]) then [|fs| - 1] else []);
      forall k | 0 <= k < |pos0| ensures pos[k] == pos0[k] && fs[pos0[k]] == init[pos0[k]] {
      }
      forall i | 0 <= i < |fs| && Listed(fs[i]) ensures i in pos {
        if i < |init| {
          assert init[i] == fs[i];
          assert i in pos0;
        } else {
          assert pos[|pos| - 1] == i;
        }
      }
    }
  }

  /** The `k`-th index form is that of the `k`-th listed position. */
  lemma {:induction false} IformLinesAtPositions(fs: seq<Field>)
    ensures |IformLines(fs)| == |ListedPositions(fs)|
    ensures forall k :: 0 <= k < |ListedPositions(fs)| ==>
              ListedPositions(fs)[k] < |fs| && Listed(fs[ListedPositions(fs)[k]])
              && IformLines(fs)[k] == Iform(fs[ListedPositions(fs)[k]])
  {
    ListedPositionsSpan(fs);
    if fs != [] {
      var init := fs[..|fs| - 1];
      var f := fs[|fs| - 1];
      IformLinesAtPositions(init);
      var pos := ListedPositions(fs);
      var pos0 := ListedPositions(init);
      var lines := IformLines(fs);
      var lines0 := IformLines(init);
      assert pos == pos0 + (if Listed(f) then [|fs| - 1] else []);
      assert lines == lines0 + (if Listed(f) then [Iform(f)] else []);
      forall k | 0 <= k < |pos0| ensures lines[k] == Iform(fs[pos[k]]) {
        assert pos[k] == pos0[k] && lines[k] == lines0[k] && fs[pos0[k]] == init[pos0[k]];
      }
    }
  }

  /** The index forms are exactly those of the listed attributes, one each, in attribute
      order: the `k`-th form is that of the `k`-th listed position, the positions strictly
      increase, and every listed attribute has its position among them. */
  lemma IformLinesInOrder(fs: seq<Field>)
    ensures |IformLines(fs)| == |ListedPositions(fs)|
    ensures forall k :: 0 <= k < |ListedPositions(fs)| ==>
              ListedPositions(fs)[k] < |fs| && Listed(fs[ListedPositions(fs)[k]])
              && IformLines(fs)[k] == Iform(fs[ListedPositions(fs)[k]])
    ensures forall k, l :: 0 <= k < l < |ListedPositions(fs)| ==> ListedPositions(fs)[k] < ListedPositions(fs)[l]
    ensures forall i :: 0 <= i < |fs| && Listed(fs[i]) ==> i in ListedPositions(fs)
  {
    ListedPositionsSpan(fs);
    IformLinesAtPositions(fs);
  }

  /** `generate_inflections(entry)`: empty without a table, otherwise the forms in `<idx:infl>`. */
  function InflectionIndex(infl: Option<Inflections>): (r: string)
    ensures r == "" <==> infl.None?
  {
    match infl
    case None => ""
    case Some(t) => "<idx:infl>" + Concat(IformLines(t.fields)) + "</idx:infl>"
  }

  // ---------------------------------------------------------------------------
  // The blocks shared by both renderings

  /** The opening tag of a `<div>` of class `cls`. */
  function DivOpen(cls: string): string {
    "<div class=\"" + cls + "\">"
  }

  function GenderBlock(gender: Option<string>): (r: string)
    ensures r == "" <==> !Truthy(gender)
  {
    if Truthy(gender) then DivOpen("gender") + "<strong>Gender:</strong> " + gender.value + "</div>" else ""
  }

  const InflectionsOpen: string := DivOpen("inflections") + "<strong>Inflections</strong><ul>"

  function InflectionsBlock(infl: Option<Inflections>): (r: string)
    ensures r == "" <==> infl.None?
  {
    match infl
    case None => ""
    case Some(t) => InflectionsOpen + Concat(InflectionLines(t.fields)) + "</ul></div>"
  }

  function ExampleItem(x: string): string {
    "<li class=\"example-item\">" + x + "</li>"
  }

  function ExampleLines(xs: seq<string>): (r: seq<string>)
    ensures |r| == |xs|
    ensures forall i :: 0 <= i < |xs| ==> r[i] == ExampleItem(xs[i])
  {
    if xs == [] then [] else ExampleLines(xs[..|xs| - 1]) + [ExampleItem(xs[|xs| - 1])]
  }

  const ExampleListOpen: string := "<ul class=\"example-list\">"

  /** The nested example list, present only when there are examples. */
  function ExampleList(xs: seq<string>): (r: string)
    ensures r == "" <==> xs == []
  {
    if xs == [] then "" else ExampleListOpen + Concat(ExampleLines(xs)) + "</ul>"
  }

  const DefinitionOpen: string := "<li class=\"definition-item\">"
  const ExpressionDefinitionOpen: string := "<li class=\"expression-definition-item\">"

  /** The item of a sense: its phrasings joined by `, `. */
  function DefinitionHead(d: Definition, open: string): string {
    open + Join(d.definition, ", ") + "</li>"
  }

  /** A sense: its item, then its examples. */
  function DefinitionItem(d: Definition, open: string): string {
    DefinitionHead(d, open) + ExampleList(d.examples)
  }

  /** `f` applied to each element, in order. */
  function Items<T>(f: T -> string, xs: seq<T>): (r: seq<string>)
    ensures |r| == |xs|
    ensures forall i :: 0 <= i < |xs| ==> r[i] == f(xs[i])
  {
    if xs == [] then [] else Items(f, xs[..|xs| - 1]) + [f(xs[|xs| - 1])]
  }

  lemma ItemsSnoc<T>(f: T -> string, xs: seq<T>, i: nat)
    requires i < |xs|
    ensures Items(f, xs[..i + 1]) == Items(f, xs[..i]) + [f(xs[i])]
  {
    assert xs[..i + 1][..i] == xs[..i];
  }

  /** One item per sense, in order: the `i`-th is the `i`-th sense's. */
  function DefinitionLines(ds: seq<Definition>, open: string): (r: seq<string>)
    ensures |r| == |ds|
    ensures forall i :: 0 <= i < |ds| ==> r[i] == DefinitionItem(ds[i], open)
  {
    Items(d => DefinitionItem(d, open), ds)
  }

  const DefinitionsOpen: string := DivOpen("definitions") + "<strong>Definitions</strong><ul>"

  function DefinitionsBlock(ds: seq<Definition>): string {
    DefinitionsOpen + Concat(DefinitionLines(ds, DefinitionOpen)) + "</ul></div>"
  }

  function ExpressionHead(e: Expression): string {
    "<li class=\"expression-item\"><strong>" + e.expression + "</strong><ul>"
  }

  function ExpressionItem(e: Expression): string {
    ExpressionHead(e) + Concat(DefinitionLines(e.definitions, ExpressionDefinitionOpen)) + "</ul></li>"
  }

  /** One item per expression, in order: the `i`-th is the `i`-th expression's. */
  function ExpressionLines(es: seq<Expression>): (r: seq<string>)
    ensures |r| == |es|
    ensures forall i :: 0 <= i < |es| ==> r[i] == ExpressionItem(es[i])
  {
    Items(ExpressionItem, es)
  }

  const ExpressionsOpen: string := DivOpen("expressions") + "<strong>Expressions</strong><ul>"

  function ExpressionsBlock(es: seq<Expression>): (r: string)
    ensures r == "" <==> es == []
  {
    if es == [] then "" else ExpressionsOpen + Concat(ExpressionLines(es)) + "</ul></div>"
  }

  /** Everything between the header and the footer, the same in both renderings. */
  function Body(e: DictionaryEntry): string {
    GenderBlock(e.gender) + InflectionsBlock(e.inflections) + DefinitionsBlock(e.definitions) + ExpressionsBlock(e.expressions)
  }

  // ---------------------------------------------------------------------------
  // The two documents

  /** `r` is `b` framed by `h` in front and `f` behind: cutting the two off leaves `b`. */
  predicate FramedBy(r: string, h: string, b: string, f: string) {
    |r| == |h| + |b| + |f| && r[|h|..|r| - |f|] == b
  }

  lemma Framed(h: string, b: string, f: string)
    ensures FramedBy(h + b + f, h, b, f)
  {
    assert (h + b + f)[|h|..|h + b + f| - |f|] == b;
  }

  function PageHeader(e: DictionaryEntry, css: string): string {
    "\n    <!DOCTYPE html>\n    <html lang=\"en\">\n    <head>\n        <meta charset=\"UTF-8\">\n"
    + "        <meta name=\"viewport\" content=\"width=device-width, initial-scale=1.0\">\n"
    + "        <link rel=\"stylesheet\" href=\"" + css + "\">\n"
    + "        <title>" + e.word + "</title>\n    </head>\n    <body>\n"
    + "        <h1 class=\"word-title\">" + e.word + " <span class=\"part-of-speech\">(" + e.partOfSpeech + ")</span></h1>\n    "
  }

  const PageFooter: string := "\n    </body>\n    </html>\n    "

  /** `dictionary_entry_to_html(entry, css_file_path)`. */
  function EntryPage(e: DictionaryEntry, css: string): (r: string)
    ensures FramedBy(r, PageHeader(e, css), Body(e), PageFooter)
  {
    Framed(PageHeader(e, css), Body(e), PageFooter);
    PageHeader(e, css) + Body(e) + PageFooter
  }

  /** The text of the Kindle entry up to the anchor's id. */
  const AnchorPrefix: string :=
    "\n        <idx:entry name=\"default\" scriptable=\"yes\" spell=\"yes\">\n            <idx:short><a id=\""

  /** What follows the anchor's id up to the body: the headword and the inflection index. */
  function OrthBlock(e: DictionaryEntry): string {
    "></a>\n                <idx:orth value=\"" + e.word + "\">\n"
    + "                    <b>" + e.word + "</b>\n                    " + InflectionIndex(e.inflections)
    + "\n                </idx:orth>\n        "
  }

  function KindleHeader(e: DictionaryEntry): string {
    AnchorPrefix + IntToString(e.id) + "\"" + OrthBlock(e)
  }

  const KindleFooter: string := "\n                </idx:short>\n        </idx:entry>\n    "

  /** `dictionary_entry_to_xhtml(entry)`. */
  function KindleEntry(e: DictionaryEntry): (r: string)
    ensures FramedBy(r, KindleHeader(e), Body(e), KindleFooter)
  {
    Framed(KindleHeader(e), Body(e), KindleFooter);
    KindleHeader(e) + Body(e) + KindleFooter
  }

  // ---------------------------------------------------------------------------
  // What the renderings show

  /** The id an index reader takes from the Kindle entry: the anchor's `id` attribute. */
  function AnchorId(x: string): string {
    if |x| < |AnchorPrefix| then "" else TakeUntil(x[|AnchorPrefix|..], '"')
  }

  lemma Assoc6(a: string, b: string, c: string, d: string, e: string, f: string)
    ensures a + b + c + d + e + f == a + (b + (c + (d + e + f)))
  {
  }

  /** The id read from an entry that starts with the anchor prefix, then `id` and a quote. */
  lemma AnchorIdOf(id: string, rest: string)
    requires '"' !in id
    ensures AnchorId(AnchorPrefix + (id + ("\"" + rest))) == id
  {
    var x := AnchorPrefix + (id + ("\"" + rest));
    assert x[|AnchorPrefix|..] == id + ("\"" + rest);
    TakeUntilPrefix(id, "\"" + rest, '"');
  }

  /** The anchor of the Kindle entry carries the entry's id, and reads back as that integer. */
  lemma KindleAnchorId(e: DictionaryEntry)
    ensures AnchorId(KindleEntry(e)) == IntToString(e.id)
    ensures ParseInt(AnchorId(KindleEntry(e))) == Some(e.id)
  {
    KindleEntryShape(e);
    AnchorIdOfInt(e.id, OrthBlock(e) + Body(e) + KindleFooter);
    ParseIntToString(e.id);
  }

  /** The Kindle entry is the anchor prefix, the id, a quote, then the rest of the page. */
  lemma KindleEntryShape(e: DictionaryEntry)
    ensures KindleEntry(e) == AnchorPrefix + (IntToString(e.id) + ("\"" + (OrthBlock(e) + Body(e) + KindleFooter)))
  {
    Assoc6(AnchorPrefix, IntToString(e.id), "\"", OrthBlock(e), Body(e), KindleFooter);
  }

  /** The id read back after the anchor prefix is the decimal form of the id written there. */
  lemma AnchorIdOfInt(i: int, rest: string)
    ensures AnchorId(AnchorPrefix + (IntToString(i) + ("\"" + rest))) == IntToString(i)
  {
    IntToStringChars(i);
    assert '"' !in IntToString(i);
    AnchorIdOf(IntToString(i), rest);
  }


  /** Two openers that differ at index `k` cannot both open the same text. */
  lemma OpenersClash(s: string, a: string, b: string, k: nat)
    requires a <= s && k < |a| && k < |b| && a[k] != b[k]
    ensures !(b <= s)
  {
    assert s[k] == a[k];
  }

  /** A text opened by the inflections or the definitions div is not opened by the gender div. */
  lemma NotGenderOpened(s: string)
    requires InflectionsOpen <= s || DefinitionsOpen <= s
    ensures !(DivOpen("gender") <= s)
  {
    if InflectionsOpen <= s {
      OpenersClash(s, InflectionsOpen, DivOpen("gender"), 12);
    } else {
      OpenersClash(s, DefinitionsOpen, DivOpen("gender"), 12);
    }
  }

  /** The body opens with the gender div exactly when the entry has a gender. Otherwise
      it opens with the inflections div when there is a table, and with the definitions
      div when not. */
  lemma BodyOpensWithGender(e: DictionaryEntry)
    ensures DivOpen("gender") <= Body(e) <==> Truthy(e.gender)
    ensures !Truthy(e.gender) && e.inflections.Some? ==> InflectionsOpen <= Body(e)
    ensures !Truthy(e.gender) && e.inflections.None? ==> DefinitionsOpen <= Body(e)
  {
    if Truthy(e.gender) {
      BodyPrefixGender(e);
    } else if e.inflections.Some? {
      BodyPrefixInflections(e);
      NotGenderOpened(Body(e));
    } else {
      BodyPrefixDefinitions(e);
      NotGenderOpened(Body(e));
    }
  }

  /** `a` is a prefix of `a + b`. */
  lemma PrefixOfConcat(a: string, b: string)
    ensures a <= a + b
  {
    assert (a + b)[..|a|] == a;
  }

  /** A prefix of `b` is a prefix of `b + c`. */
  lemma PrefixExtend(a: string, b: string, c: string)
    requires a <= b
    ensures a <= b + c
  {
    assert (b + c)[..|a|] == b[..|a|];
  }

  /** A prefix of the first non-empty block of the body is a prefix of the body. */
  lemma BodyPrefixOf(a: string, g: string, i: string, d: string, x: string)
    requires a <= g + i + d
    ensures a <= g + i + d + x
  {
    PrefixExtend(a, g + i + d, x);
  }

  /** With a truthy gender the body opens with the gender div. */
  lemma BodyPrefixGender(e: DictionaryEntry)
    requires Truthy(e.gender)
    ensures DivOpen("gender") <= Body(e)
  {
    var o := DivOpen("gender");
    var head := "<strong>Gender:</strong> ";
    var g := GenderBlock(e.gender);
    var i := InflectionsBlock(e.inflections);
    var d := DefinitionsBlock(e.definitions);
    PrefixOfConcat(o, head);
    PrefixExtend(o, o + head, e.gender.value);
    PrefixExtend(o, o + head + e.gender.value, "</div>");
    PrefixExtend(o, g, i);
    PrefixExtend(o, g + i, d);
    BodyPrefixOf(o, g, i, d, ExpressionsBlock(e.expressions));
  }

  /** Without a gender but with a table the body opens with the inflections div. */
  lemma BodyPrefixInflections(e: DictionaryEntry)
    requires !Truthy(e.gender) && e.inflections.Some?
    ensures InflectionsOpen <= Body(e)
  {
    var g := GenderBlock(e.gender);
    var i := InflectionsBlock(e.inflections);
    var d := DefinitionsBlock(e.definitions);
    var lines := Concat(InflectionLines(e.inflections.value.fields));
    PrefixOfConcat(InflectionsOpen, lines);
    PrefixExtend(InflectionsOpen, InflectionsOpen + lines, "</ul></div>");
    assert g + i == i;
    PrefixExtend(InflectionsOpen, g + i, d);
    BodyPrefixOf(InflectionsOpen, g, i, d, ExpressionsBlock(e.expressions));
  }

  /** Without a gender and without a table the body opens with the definitions div. */
  lemma BodyPrefixDefinitions(e: DictionaryEntry)
    requires !Truthy(e.gender) && e.inflections.None?
    ensures DefinitionsOpen <= Body(e)
  {
    var g := GenderBlock(e.gender);
    var i := InflectionsBlock(e.inflections);
    var d := DefinitionsBlock(e.definitions);
    var lines := Concat(DefinitionLines(e.definitions, DefinitionOpen));
    PrefixOfConcat(DefinitionsOpen, lines);
    PrefixExtend(DefinitionsOpen, DefinitionsOpen + lines, "</ul></div>");
    assert g + i + d == d;
    BodyPrefixOf(DefinitionsOpen, g, i, d, ExpressionsBlock(e.expressions));
  }

  // ---------------------------------------------------------------------------
  // The renderers

  /** The inflection list items, attribute by attribute. */
  method RenderInflectionItems(fs: seq<Field>) returns (s: string)
    ensures s == Concat(InflectionLines(fs))
  {
    s := "";
    var i := 0;
    while i < |fs|
      invariant 0 <= i <= |fs|
      invariant s == Concat(InflectionLines(fs[..i]))
    {
      var f := fs[i];
      assert fs[..i + 1][..i] == fs[..i];
      ghost var lines := InflectionLines(fs[..i]);
      if !IsPrivate(f.name) {
        var item := "<li class=\"inflection-item\">" + DisplayName(f.name) + ": " + ValueText(f.value) + "</li>";
        assert item == InflectionItem(f);
        assert InflectionLines(fs[..i + 1]) == lines + [InflectionItem(f)];
        ConcatSnoc(lines, item);
        s := s + item;
      } else {
        assert InflectionLines(fs[..i + 1]) == lines;
      }
      i := i + 1;
    }
    assert fs[..|fs|] == fs;
  }

  /** The example items of one sense. */
  method RenderExamples(s0: string, xs: seq<string>) returns (s: string)
    ensures s == s0 + Concat(ExampleLines(xs))
  {
    s := s0;
    var j := 0;
    while j < |xs|
      invariant 0 <= j <= |xs|
      invariant s == s0 + Concat(ExampleLines(xs[..j]))
    {
      var item := "<li class=\"example-item\">" + xs[j] + "</li>";
      assert item == ExampleItem(xs[j]);
      assert xs[..j + 1][..j] == xs[..j];
      ghost var lines := ExampleLines(xs[..j]);
      assert ExampleLines(xs[..j + 1]) == lines + [ExampleItem(xs[j])];
      ConcatSnoc(lines, item);
      Assoc(s0, Concat(lines), item);
      s := s + item;
      j := j + 1;
    }
    assert xs[..j] == xs;
  }

  /** The sense items of a list, each followed by its example list. */
  method RenderDefinitions(ds: seq<Definition>, open: string) returns (s: string)
    ensures s == Concat(DefinitionLines(ds, open))
  {
    s := "";
    var i := 0;
    while i < |ds|
      invariant 0 <= i <= |ds|
      invariant s == Concat(DefinitionLines(ds[..i], open))
    {
      ghost var lines := DefinitionLines(ds[..i], open);
      s := RenderDefinition(s, ds[i], open);
      DefinitionLinesSnoc(ds, i, open);
      ConcatSnoc(lines, DefinitionItem(ds[i], open));
      i := i + 1;
    }
    assert ds[..|ds|] == ds;
  }

  /** One sense item appended to `s0`, then its example list when it has examples. */
  method RenderDefinition(s0: string, d: Definition, open: string) returns (s: string)
    ensures s == s0 + DefinitionItem(d, open)
  {
    var head := open + Join(d.definition, ", ") + "</li>";
    assert head == DefinitionHead(d, open);
    s := s0 + head;
    if d.examples != [] {
      s := s + ExampleListOpen;
      s := RenderExamples(s, d.examples);
      s := s + "</ul>";
      Assoc5(s0, head, ExampleListOpen, Concat(ExampleLines(d.examples)), "</ul>");
    }
  }

  lemma DefinitionLinesSnoc(ds: seq<Definition>, i: nat, open: string)
    requires i < |ds|
    ensures DefinitionLines(ds[..i + 1], open) == DefinitionLines(ds[..i], open) + [DefinitionItem(ds[i], open)]
  {
    assert ds[..i + 1][..i] == ds[..i];
  }

  /** The expression items, each with its own senses. */
  method RenderExpressions(es: seq<Expression>) returns (s: string)
    ensures s == Concat(ExpressionLines(es))
  {
    s := "";
    var i := 0;
    while i < |es|
      invariant 0 <= i <= |es|
      invariant s == Concat(ExpressionLines(es[..i]))
    {
      var e := es[i];
      ghost var before := s;
      var head := "<li class=\"expression-item\"><strong>" + e.expression + "</strong><ul>";
      assert head == ExpressionHead(e);
      s := s + head;
      var defs := RenderDefinitions(e.definitions, ExpressionDefinitionOpen);
      s := s + defs;
      s := s + "</ul></li>";
      Assoc4(before, head, defs, "</ul></li>");
      assert s == before + ExpressionItem(e);
      ghost var lines := ExpressionLines(es[..i]);
      ItemsSnoc(ExpressionItem, es, i);
      ConcatSnoc(lines, ExpressionItem(e));
      i := i + 1;
    }
    assert es[..|es|] == es;
  }

  /** The blocks after the header, in the order both renderers append them. */
  method RenderBody(e: DictionaryEntry) returns (s: string)
    ensures s == Body(e)
  {
    s := "";
    if Truthy(e.gender) {
      var block := DivOpen("gender") + "<strong>Gender:</strong> " + e.gender.value + "</div>";
      assert block == GenderBlock(e.gender);
      s := s + block;
    }
    assert s == GenderBlock(e.gender);
    if e.inflections.Some? {
      s := s + InflectionsOpen;
      var items := RenderInflectionItems(e.inflections.value.fields);
      s := s + items;
      s := s + "</ul></div>";
      Assoc4(GenderBlock(e.gender), InflectionsOpen, items, "</ul></div>");
    }
    assert s == GenderBlock(e.gender) + InflectionsBlock(e.inflections);
    ghost var upper := s;
    s := s + DefinitionsOpen;
    var defs := RenderDefinitions(e.definitions, DefinitionOpen);
    s := s + defs;
    s := s + "</ul></div>";
    Assoc4(upper, DefinitionsOpen, defs, "</ul></div>");
    assert s == upper + DefinitionsBlock(e.definitions);
    ghost var middle := s;
    if e.expressions != [] {
      s := s + ExpressionsOpen;
      var exprs := RenderExpressions(e.expressions);
      s := s + exprs;
      s := s + "</ul></div>";
      Assoc4(middle, ExpressionsOpen, exprs, "</ul></div>");
    }
    assert s == middle + ExpressionsBlock(e.expressions);
  }

  /** `generate_inflections(entry)`. */
  method GenerateInflections(e: DictionaryEntry) returns (s: string)
    ensures s == InflectionIndex(e.inflections)
  {
    if e.inflections.None? {
      return "";
    }
    var fs := e.inflections.value.fields;
    s := "<idx:infl>";
    ghost var start := s;
    var i := 0;
    while i < |fs|
      invariant 0 <= i <= |fs|
      invariant s == start + Concat(IformLines(fs[..i]))
    {
      var f := fs[i];
      assert fs[..i + 1][..i] == fs[..i];
      ghost var lines := IformLines(fs[..i]);
      if !IsPrivate(f.name) && Truthy(f.value) {
        var form := "<idx:iform name=\"" + ReplaceChar(f.name, '_', ' ') + "\" value=\"" + f.value.value + "\"></idx:iform>";
        assert form == Iform(f);
        assert IformLines(fs[..i + 1]) == lines + [Iform(f)];
        ConcatSnoc(lines, form);
        Assoc(start, Concat(lines), form);
        s := s + form;
      } else {
        assert IformLines(fs[..i + 1]) == lines;
      }
      i := i + 1;
    }
    assert fs[..|fs|] == fs;
    s := s + "</idx:infl>";
  }

  /** `dictionary_entry_to_html(entry, css_file_path)`. */
  method DictionaryEntryToHtml(e: DictionaryEntry, css: string) returns (html: string)
    ensures html == EntryPage(e, css)
  {
    html := PageHeader(e, css);
    var body := RenderBody(e);
    html := html + body;
    html := html + PageFooter;
  }

  /** `dictionary_entry_to_xhtml(entry)`. */
  method DictionaryEntryToXhtml(e: DictionaryEntry) returns (xhtml: string)
    ensures xhtml == KindleEntry(e)
  {
    var index := GenerateInflections(e);
    var orth := "></a>\n                <idx:orth value=\"" + e.word + "\">\n"
      + "                    <b>" + e.word + "</b>\n                    " + index
      + "\n                </idx:orth>\n        ";
    assert orth == OrthBlock(e);
    xhtml := AnchorPrefix + IntToString(e.id) + "\"" + orth;
    var body := RenderBody(e);
    xhtml := xhtml + body;
    xhtml := xhtml + KindleFooter;
  }
}
