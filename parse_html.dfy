/** Reading an article page: the headword and its part of speech from the
    lookup span, and the verb's ten forms from its two inflection tables. */
module ParseHtml {
  import opened Wrappers
  import opened Strings
  import opened Html
  import opened EntryModel

  /** The `ParseError`s: each structural violation has its own. */
  datatype ParseFailure =
    | NoWordSpan
    | NoPartOfSpeechSpan
    | RowCount(rows: nat, expectedRows: nat)
    | CellCount(cells: nat)
    | TableCount(tables: nat)

  /** The message each `ParseError` carries. */
  function Message(e: ParseFailure): string {
    match e
    case NoWordSpan => "Word span not found in the HTML snippet"
    case NoPartOfSpeechSpan => "Part of speech span not found in the HTML snippet"
    case RowCount(n, expected) =>
      CountMessage(RowsLead, n, ". Expected " + IntToString(expected) + ".")
    case CellCount(n) => CountMessage(CellsLead, n, ". Expected 5.")
    case TableCount(n) => CountMessage(TablesLead, n, ". Expected 2.")
  }

  const Unexpected := "Unexpected number of "
  const RowsLead := Unexpected + "rows in the table "
  const CellsLead := Unexpected + "cells in the table "
  const TablesLead := Unexpected + "tables in the HTML snippet "

  /** `lead (n)tail`, the shape of every count message. */
  function CountMessage(lead: string, n: int, tail: string): string {
    lead + ['('] + (IntToString(n) + [')'] + tail)
  }

  /** The count a message reports: the number between its first `(` and the next `)`. */
  function ReportedCount(msg: string): Option<int> {
    ParseInt(TakeUntil(DropThrough(msg, '('), ')'))
  }

  /** The count in a count message reads back as the number it was built from. */
  lemma CountMessageReports(lead: string, n: int, tail: string)
    requires '(' !in lead
    ensures ReportedCount(CountMessage(lead, n, tail)) == Some(n)
  {
    var digits := IntToString(n);
    DropThroughPrefix(lead, digits + [')'] + tail, '(');
    IntToStringChars(n);
    assert ')' !in digits;
    TakeUntilPrefix(digits, [')'] + tail, ')');
    assert digits + [')'] + tail == digits + ([')'] + tail);
    ParseIntToString(n);
  }

  /** None of the leads has a `(` before the count. */
  lemma LeadsUnbracketed()
    ensures '(' !in RowsLead && '(' !in CellsLead && '(' !in TablesLead
  {
    assert forall k :: 0 <= k < |Unexpected| ==> Unexpected[k] != '(';
    var rows := "rows in the table ";
    var cells := "cells in the table ";
    var tables := "tables in the HTML snippet ";
    assert forall k :: 0 <= k < |rows| ==> rows[k] != '(';
    assert forall k :: 0 <= k < |cells| ==> cells[k] != '(';
    assert forall k :: 0 <= k < |tables| ==> tables[k] != '(';
  }

  /** Every count error's message reports the count that was found. */
  lemma MessageReportsCount(e: ParseFailure)
    requires e.RowCount? || e.CellCount? || e.TableCount?
    ensures e.RowCount? ==> ReportedCount(Message(e)) == Some(e.rows)
    ensures e.CellCount? ==> ReportedCount(Message(e)) == Some(e.cells)
    ensures e.TableCount? ==> ReportedCount(Message(e)) == Some(e.tables)
  {
    LeadsUnbracketed();
    match e
    case RowCount(n, expected) =>
      CountMessageReports(RowsLead, n, ". Expected " + IntToString(expected) + ".");
    case CellCount(n) =>
      CountMessageReports(CellsLead, n, ". Expected 5.");
    case TableCount(n) =>
      CountMessageReports(TablesLead, n, ". Expected 2.");
  }

  // ---------------------------------------------------------------------------
  // Headword and part of speech

  const LookupSpan := Selector("span", Some("lookup"))
  const SubheaderSpan := Selector("span", Some("subheader"))

  datatype WordAndPos = WordAndPos(word: string, partOfSpeech: string)

  /** The path to the part-of-speech span: the first `span.subheader` inside the first `span.lookup`. */
  function SubheaderPath(ns: seq<Node>): (r: Option<seq<nat>>)
    ensures r.Some? ==> ValidPath(ns, r.value) && Matches(At(ns, r.value), SubheaderSpan)
  {
    match FindFirst(ns, LookupSpan)
    case None => None
    case Some(p) =>
      match FindFirst(At(ns, p).children, SubheaderSpan)
      case None => None
      case Some(q) =>
        PathAppend(ns, p, q);
        Some(p + q)
  }

  /** The headword read from the text of a lookup span whose subheader is gone:
      the first space-separated token, stripped. */
  function HeadwordOf(children: seq<Node>): (r: string)
    ensures ' ' !in r && Trimmed(r)
  {
    var token := Split(GetText(children, " "), ' ')[0];
    StripKeeps(token);
    Strip(token)
  }

  /** `extract_word_and_pos(soup)` on a document whose top-level nodes are `ns`. */
  function WordAndPosOf(ns: seq<Node>): (r: Result<WordAndPos, ParseFailure>)
    ensures r == Err(NoWordSpan) <==> FindAll(ns, LookupSpan) == []
    ensures r.Ok? ==> ' ' !in r.value.word && Trimmed(r.value.word) && Trimmed(r.value.partOfSpeech)
  {
    FindFirstIsFirstOfAll(ns, LookupSpan);
    match FindFirst(ns, LookupSpan)
    case None => Err(NoWordSpan)
    case Some(p) =>
      var span := At(ns, p);
      match FindFirst(span.children, SubheaderSpan)
      case None => Err(NoPartOfSpeechSpan)
      case Some(q) =>
        var sub := At(span.children, q);
        Ok(WordAndPos(HeadwordOf(RemoveAt(span.children, q)), Strip(GetText(sub.children, ""))))
  }

  /** Without a lookup span, or with one that has no subheader, extraction fails with the matching error. */
  lemma WordAndPosErrors(ns: seq<Node>)
    ensures WordAndPosOf(ns) == Err(NoWordSpan) <==> FindFirst(ns, LookupSpan).None?
    ensures WordAndPosOf(ns) == Err(NoPartOfSpeechSpan) <==>
              FindFirst(ns, LookupSpan).Some? && FindFirst(At(ns, FindFirst(ns, LookupSpan).value).children, SubheaderSpan).None?
    ensures WordAndPosOf(ns).Ok? <==> SubheaderPath(ns).Some?
  {
  }

  // ---------------------------------------------------------------------------
  // Cell text and the positional clean-ups

  /** A cell's form: its space-joined stripped text, cut at the first `+`, stripped. */
  function CellText(cell: Node): (r: string)
    ensures '+' !in r && Trimmed(r)
  {
    var piece := Split(GetText(ChildrenOf(cell), " "), '+')[0];
    StripKeeps(piece);
    Strip(piece)
  }

  /** `s[len(p):]` when `s.startswith(p)`, otherwise `s`. */
  function DropPrefix(s: string, p: string): (r: string)
    ensures forall c :: c in r ==> c in s
  {
    if |p| <= |s| && s[..|p|] == p then s[|p|..] else s
  }

  const InfinitiveMarker: string := "\U{E5} "

  /** The infinitive without the particle `å` in front of it. */
  function Infinitive(v: string): (r: string)
    ensures '+' !in v ==> '+' !in r
    ensures Trimmed(r)
  {
    StripKeeps(DropPrefix(v, InfinitiveMarker));
    Strip(DropPrefix(v, InfinitiveMarker))
  }

  /** The imperative without its exclamation mark. */
  function Imperative(v: string): (r: string)
    ensures '+' !in v ==> '+' !in r
    ensures Trimmed(r)
  {
    var w := if |v| > 0 && v[|v| - 1] == '!' then v[..|v| - 1] else v;
    assert forall c :: c in w ==> c in v;
    StripKeeps(w);
    Strip(w)
  }

  const DefiniteArticles: string := "den/det "

  /** The definite participle without the `den/det` in front of it. */
  function DefiniteParticiple(v: string): (r: string)
    ensures '+' !in v ==> '+' !in r
    ensures Trimmed(r)
  {
    StripKeeps(DropPrefix(v, DefiniteArticles));
    Strip(DropPrefix(v, DefiniteArticles))
  }

  /** The infinitive loses its particle: `å gå` becomes `gå`. */
  lemma InfinitiveExample()
    ensures Infinitive("\U{E5} g\U{E5}") == "g\U{E5}"
  {
    var v := "\U{E5} g\U{E5}";
    assert v[..2] == InfinitiveMarker;
    assert DropPrefix(v, InfinitiveMarker) == "g\U{E5}";
    StripTrimmed("g\U{E5}");
  }

  /** The imperative loses its exclamation mark: `gå!` becomes `gå`. */
  lemma ImperativeExample()
    ensures Imperative("g\U{E5}!") == "g\U{E5}"
  {
    var v := "g\U{E5}!";
    var w := "g\U{E5}";
    assert v[..|v| - 1] == w;
    assert Trimmed(w) by {
      assert w[0] == 'g' && w[|w| - 1] == '\U{E5}';
    }
    StripTrimmed(w);
  }

  /** The definite participle loses its articles: `den/det kast` becomes `kast`. */
  lemma DefiniteParticipleExample()
    ensures DefiniteParticiple("den/det kast") == "kast"
  {
    var v := "den/det kast";
    assert v[..8] == DefiniteArticles;
    assert v[8..] == "kast";
    StripTrimmed("kast");
  }

  // ---------------------------------------------------------------------------
  // The two tables

  /** The keys the basic table fills, column by column. */
  const BasicNames: seq<string> := ["infinitiv", "presens", "preteritum", "presens_perfektum", "imperativ"]

  /** The keys the participle table fills, column by column. */
  const ParticipleNames: seq<string> :=
    ["perfektum_partisipp_hankjonn", "perfektum_partisipp_intetkjonn",
     "perfektum_partisipp_bestemt_form", "perfektum_partisipp_flertall", "presens_partisipp"]

  /** The basic form in column `i`: the infinitive and the imperative are cleaned further. */
  function BasicValue(i: nat, v: string): string {
    if i == 0 then Infinitive(v) else if i == 4 then Imperative(v) else v
  }

  /** The participle in column `i`: the definite one is cleaned further. */
  function ParticipleValue(i: nat, v: string): string {
    if i == 2 then DefiniteParticiple(v) else v
  }

  /** The forms of a row's cells, each cleaned as its column demands. */
  function RowValues(participle: bool, cells: seq<Node>): (r: seq<string>)
    ensures |r| == |cells|
  {
    ColumnValues(participle, CellTexts(cells))
  }

  /** The text of every cell of a row. */
  function CellTexts(cells: seq<Node>): (r: seq<string>)
    ensures |r| == |cells|
  {
    seq(|cells|, i requires 0 <= i < |cells| => CellText(cells[i]))
  }

  /** Each cell's text cleaned as its column demands. */
  function ColumnValues(participle: bool, texts: seq<string>): (r: seq<string>)
    ensures |r| == |texts|
  {
    seq(|texts|, i requires 0 <= i < |texts| =>
      if participle then ParticipleValue(i, texts[i]) else BasicValue(i, texts[i]))
  }

  /** Every form read from a table is stripped and has no `+` left in it. */
  lemma RowValuesClean(participle: bool, cells: seq<Node>)
    ensures forall i :: 0 <= i < |cells| ==> '+' !in RowValues(participle, cells)[i] && Trimmed(RowValues(participle, cells)[i])
  {
    var r := RowValues(participle, cells);
    forall i | 0 <= i < |cells| ensures '+' !in r[i] && Trimmed(r[i]) {
      ColumnValueClean(participle, i, cells[i]);
    }
  }

  lemma ColumnValueClean(participle: bool, i: nat, cell: Node)
    ensures var v := if participle then ParticipleValue(i, CellText(cell)) else BasicValue(i, CellText(cell));
            '+' !in v && Trimmed(v)
  {
  }

  /** The dict after the first `n` rounds of `verb_forms[name] = form`. */
  function FormsUpTo(names: seq<string>, values: seq<string>, n: nat): map<string, string>
    requires n <= |names| && n <= |values|
  {
    if n == 0 then map[] else FormsUpTo(names, values, n - 1)[names[n - 1] := values[n - 1]]
  }

  predicate Distinct(names: seq<string>) {
    forall i, j :: 0 <= i < j < |names| ==> names[i] != names[j]
  }

  /** After `n` rounds the keys are the first `n` names, and with distinct names each holds its own column's value. */
  lemma {:induction false} FormsUpToContents(names: seq<string>, values: seq<string>, n: nat)
    requires n <= |names| && n <= |values|
    ensures forall k :: k in FormsUpTo(names, values, n) <==> k in names[..n]
    ensures Distinct(names) ==> forall i :: 0 <= i < n ==> FormsUpTo(names, values, n)[names[i]] == values[i]
  {
    if n > 0 {
      FormsUpToContents(names, values, n - 1);
      assert names[..n] == names[..n - 1] + [names[n - 1]];
    }
  }

  /** Every value the loop stored is one of the table's forms. */
  lemma {:induction false} FormsUpToValues(names: seq<string>, values: seq<string>, n: nat)
    requires n <= |names| && n <= |values|
    ensures forall k :: k in FormsUpTo(names, values, n) ==> FormsUpTo(names, values, n)[k] in values[..n]
  {
    if n > 0 {
      FormsUpToValues(names, values, n - 1);
      assert values[..n] == values[..n - 1] + [values[n - 1]];
    }
  }

  lemma BasicNamesDistinct()
    ensures Distinct(BasicNames)
  {
    assert BasicNames[0][1] != BasicNames[4][1];
  }

  lemma ParticipleNamesDistinct()
    ensures Distinct(ParticipleNames)
  {
    assert ParticipleNames[0][20] != ParticipleNames[3][20];
  }

  /** A table's rows, checked against the expected count, and the cells of its last row, checked to be five. */
  function DataCells(table: Node, expectedRows: nat): (r: Result<seq<Node>, ParseFailure>)
    requires expectedRows > 0
    ensures r.Ok? ==> |r.value| == 5 && forall k :: 0 <= k < 5 ==> Matches(r.value[k], Selector("td", None))
    ensures r.Err? ==> r.error.RowCount? || r.error.CellCount?
    ensures r.Err? && r.error.RowCount? ==> r.error.expectedRows == expectedRows && r.error.rows != expectedRows
    ensures r.Err? && r.error.CellCount? ==> r.error.cells != 5
  {
    var rows := FindAll(ChildrenOf(table), Selector("tr", None));
    if |rows| != expectedRows then Err(RowCount(|rows|, expectedRows))
    else
      var cells := FindAll(ChildrenOf(rows[expectedRows - 1]), Selector("td", None));
      if |cells| != 5 then Err(CellCount(|cells|)) else Ok(cells)
  }

  /** `parse_verb_basic_inflections(table)`, as a value. */
  function BasicForms(table: Node): (r: Result<map<string, string>, ParseFailure>)
    ensures r.Err? <==> DataCells(table, 2).Err?
    ensures r.Err? ==> r.error == DataCells(table, 2).error
    ensures r.Ok? ==> forall k :: k in r.value ==> '+' !in r.value[k] && Trimmed(r.value[k])
  {
    match DataCells(table, 2)
    case Err(e) => Err(e)
    case Ok(cells) =>
      var values := RowValues(false, cells);
      RowValuesClean(false, cells);
      FormsUpToValues(BasicNames, values, 5);
      assert values[..5] == values;
      Ok(FormsUpTo(BasicNames, values, 5))
  }

  /** `parse_verb_participle_inflections(table)`, as a value. */
  function ParticipleForms(table: Node): (r: Result<map<string, string>, ParseFailure>)
    ensures r.Err? <==> DataCells(table, 3).Err?
    ensures r.Err? ==> r.error == DataCells(table, 3).error
    ensures r.Ok? ==> forall k :: k in r.value ==> '+' !in r.value[k] && Trimmed(r.value[k])
  {
    match DataCells(table, 3)
    case Err(e) => Err(e)
    case Ok(cells) =>
      var values := RowValues(true, cells);
      RowValuesClean(true, cells);
      FormsUpToValues(ParticipleNames, values, 5);
      assert values[..5] == values;
      Ok(FormsUpTo(ParticipleNames, values, 5))
  }

  /** The basic table fails exactly on a wrong row or cell count, and otherwise
      yields the five basic keys, each from its own column. */
  lemma BasicFormsContents(table: Node)
    ensures BasicForms(table).Err? <==> DataCells(table, 2).Err?
    ensures BasicForms(table).Ok? ==>
              (forall k :: k in BasicForms(table).value <==> k in BasicNames)
              && forall i :: 0 <= i < 5 ==> BasicForms(table).value[BasicNames[i]] == RowValues(false, DataCells(table, 2).value)[i]
  {
    if DataCells(table, 2).Ok? {
      BasicNamesDistinct();
      FormsUpToContents(BasicNames, RowValues(false, DataCells(table, 2).value), 5);
    }
  }

  /** The participle table fails exactly on a wrong row or cell count, and otherwise
      yields the five participle keys, each from its own column. */
  lemma ParticipleFormsContents(table: Node)
    ensures ParticipleForms(table).Err? <==> DataCells(table, 3).Err?
    ensures ParticipleForms(table).Ok? ==>
              (forall k :: k in ParticipleForms(table).value <==> k in ParticipleNames)
              && forall i :: 0 <= i < 5 ==>
                   ParticipleForms(table).value[ParticipleNames[i]] == RowValues(true, DataCells(table, 3).value)[i]
  {
    if DataCells(table, 3).Ok? {
      ParticipleNamesDistinct();
      FormsUpToContents(ParticipleNames, RowValues(true, DataCells(table, 3).value), 5);
    }
  }

  /** The branch of the loop body that cleans the form in column `i`. */
  method CleanColumn(participle: bool, i: nat, v: string) returns (form: string)
    ensures form == if participle then ParticipleValue(i, v) else BasicValue(i, v)
  {
    form := v;
    if participle {
      if i == 2 {
        form := DropPrefix(form, DefiniteArticles);
        form := Strip(form);
      }
    } else if i == 0 {
      form := DropPrefix(form, InfinitiveMarker);
      form := Strip(form);
    } else if i == 4 {
      if |form| > 0 && form[|form| - 1] == '!' {
        form := form[..|form| - 1];
      }
      form := Strip(form);
    }
  }

  /** The loop over the five cells, cleaning by column and storing under the column's name. */
  method FillForms(names: seq<string>, participle: bool, texts: seq<string>) returns (forms: map<string, string>)
    requires |texts| == 5 && |names| == 5
    ensures forms == FormsUpTo(names, ColumnValues(participle, texts), 5)
  {
    ghost var values := ColumnValues(participle, texts);
    forms := map[];
    var i := 0;
    while i < |texts|
      invariant 0 <= i <= 5
      invariant forms == FormsUpTo(names, values, i)
    {
      var form := CleanColumn(participle, i, texts[i]);
      forms := forms[names[i] := form];
      i := i + 1;
    }
  }

  /** `parse_verb_basic_inflections(table)`. */
  method ParseVerbBasicInflections(table: Node) returns (r: Result<map<string, string>, ParseFailure>)
    ensures r == BasicForms(table)
  {
    var rows := FindAll(ChildrenOf(table), Selector("tr", None));
    if |rows| != 2 {
      return Err(RowCount(|rows|, 2));
    }
    var cells := FindAll(ChildrenOf(rows[1]), Selector("td", None));
    if |cells| != 5 {
      return Err(CellCount(|cells|));
    }
    var forms := FillForms(BasicNames, false, CellTexts(cells));
    return Ok(forms);
  }

  /** `parse_verb_participle_inflections(table)`. */
  method ParseVerbParticipleInflections(table: Node) returns (r: Result<map<string, string>, ParseFailure>)
    ensures r == ParticipleForms(table)
  {
    var rows := FindAll(ChildrenOf(table), Selector("tr", None));
    if |rows| != 3 {
      return Err(RowCount(|rows|, 3));
    }
    var cells := FindAll(ChildrenOf(rows[2]), Selector("td", None));
    if |cells| != 5 {
      return Err(CellCount(|cells|));
    }
    var forms := FillForms(ParticipleNames, true, CellTexts(cells));
    return Ok(forms);
  }

  // ---------------------------------------------------------------------------
  // The verb's inflections

  /** The union of the basic and the participle dicts, or the first table's error. */
  function MergedForms(basicTable: Node, participleTable: Node): (r: Result<map<string, string>, ParseFailure>)
    ensures r.Ok? <==> BasicForms(basicTable).Ok? && ParticipleForms(participleTable).Ok?
    ensures BasicForms(basicTable).Err? ==> r == Err(BasicForms(basicTable).error)
    ensures BasicForms(basicTable).Ok? && ParticipleForms(participleTable).Err? ==> r == Err(ParticipleForms(participleTable).error)
    ensures r.Err? ==> r.error.RowCount? || r.error.CellCount?
    ensures r.Ok? ==> forall k :: k in r.value ==> '+' !in r.value[k] && Trimmed(r.value[k])
  {
    match BasicForms(basicTable)
    case Err(e) => Err(e)
    case Ok(basic) =>
      match ParticipleForms(participleTable)
      case Err(e) => Err(e)
      case Ok(participle) => Ok(basic + participle)
  }

  /** The merged forms of the first two of a document's tables, or the first error. */
  function VerbFormsOfTables(tables: seq<Node>): (r: Result<map<string, string>, ParseFailure>)
    ensures (r.Err? && r.error.TableCount?) <==> |tables| < 2
    ensures |tables| < 2 ==> r.error.tables == |tables|
    ensures |tables| >= 2 ==> r == MergedForms(tables[0], tables[1])
  {
    var first := if |tables| <= 2 then tables else tables[..2];
    if |first| != 2 then Err(TableCount(|first|)) else MergedForms(first[0], first[1])
  }

  /** The forms of a document: those of its first two tables in document order. */
  function VerbForms(ns: seq<Node>): Result<map<string, string>, ParseFailure> {
    VerbFormsOfTables(FindAll(ns, Selector("table", None)))
  }

  /** Tables after the second are never looked at. */
  lemma VerbFormsFirstTwo(tables: seq<Node>, more: seq<Node>)
    requires |tables| == 2
    ensures VerbFormsOfTables(tables + more) == VerbFormsOfTables(tables)
  {
    assert (tables + more)[..2] == tables;
  }

  /** Fewer than two tables is the table-count error, reporting how many there are. */
  lemma VerbFormsTooFewTables(tables: seq<Node>)
    requires |tables| < 2
    ensures VerbFormsOfTables(tables) == Err(TableCount(|tables|))
  {
  }

  /** The names of the two tables, in order, are the fields of `VerbInflections`. */
  lemma VerbFieldNames()
    ensures FieldNames(VerbInflections) == BasicNames + ParticipleNames
  {
  }

  /** No basic name is a participle name, so the union loses nothing. */
  lemma NamesDisjoint()
    ensures forall i, j :: 0 <= i < 5 && 0 <= j < 5 ==> BasicNames[i] != ParticipleNames[j]
  {
    forall i, j | 0 <= i < 5 && 0 <= j < 5 ensures BasicNames[i] != ParticipleNames[j] {
      if |BasicNames[i]| == |ParticipleNames[j]| {
        assert i == 3 && j == 4;
        assert BasicNames[3][9] != ParticipleNames[4][9];
      }
    }
  }

  /** The union of two dicts filled under disjoint lists of names: every name holds
      its own value, nothing else is a key, and every value is one of the two tables'. */
  lemma UnionOfTables(b: map<string, string>, bn: seq<string>, bv: seq<string>,
                      p: map<string, string>, pn: seq<string>, pv: seq<string>)
    requires |bn| == |bv| && |pn| == |pv|
    requires (forall k :: k in b <==> k in bn) && (forall k :: k in p <==> k in pn)
    requires forall i :: 0 <= i < |bn| ==> b[bn[i]] == bv[i]
    requires forall i :: 0 <= i < |pn| ==> p[pn[i]] == pv[i]
    requires (forall k :: k in b ==> b[k] in bv) && (forall k :: k in p ==> p[k] in pv)
    requires forall i, j :: 0 <= i < |bn| && 0 <= j < |pn| ==> bn[i] != pn[j]
    ensures forall k :: k in b + p <==> k in bn + pn
    ensures forall i :: 0 <= i < |bn| ==> bn[i] in b + p && (b + p)[bn[i]] == bv[i]
    ensures forall i :: 0 <= i < |pn| ==> pn[i] in b + p && (b + p)[pn[i]] == pv[i]
    ensures forall k :: k in b + p ==> (b + p)[k] in bv || (b + p)[k] in pv
  {
    UnionKeys(b, bn, p, pn);
    UnionLeft(b, bn, bv, p, pn);
    UnionRight(b, p, pn, pv);
    UnionFrom(b, bv, p, pv);
  }

  lemma UnionFrom(b: map<string, string>, bv: seq<string>, p: map<string, string>, pv: seq<string>)
    requires forall k :: k in b ==> b[k] in bv
    requires forall k :: k in p ==> p[k] in pv
    ensures forall k :: k in b + p ==> (b + p)[k] in bv || (b + p)[k] in pv
  {
  }

  lemma UnionKeys(b: map<string, string>, bn: seq<string>, p: map<string, string>, pn: seq<string>)
    requires forall k :: k in b <==> k in bn
    requires forall k :: k in p <==> k in pn
    ensures forall k :: k in b + p <==> k in bn + pn
  {
  }

  lemma UnionLeft(b: map<string, string>, bn: seq<string>, bv: seq<string>, p: map<string, string>, pn: seq<string>)
    requires |bn| == |bv|
    requires forall i :: 0 <= i < |bn| ==> bn[i] in b && b[bn[i]] == bv[i]
    requires forall k :: k in p <==> k in pn
    requires forall i, j :: 0 <= i < |bn| && 0 <= j < |pn| ==> bn[i] != pn[j]
    ensures forall i :: 0 <= i < |bn| ==> bn[i] in b + p && (b + p)[bn[i]] == bv[i]
  {
    forall i | 0 <= i < |bn| ensures bn[i] !in p {
      assert forall j :: 0 <= j < |pn| ==> bn[i] != pn[j];
    }
  }

  lemma UnionRight(b: map<string, string>, p: map<string, string>, pn: seq<string>, pv: seq<string>)
    requires |pn| == |pv|
    requires forall i :: 0 <= i < |pn| ==> pn[i] in p && p[pn[i]] == pv[i]
    ensures forall i :: 0 <= i < |pn| ==> pn[i] in b + p && (b + p)[pn[i]] == pv[i]
  {
  }

  /** A successful merge has exactly the ten fields of `VerbInflections` as keys, each
      holding the form from its own table and column, every one stripped and free of `+`. */
  lemma MergedContents(basicTable: Node, participleTable: Node)
    requires MergedForms(basicTable, participleTable).Ok?
    ensures var m := MergedForms(basicTable, participleTable).value;
            && (forall k :: k in m <==> k in FieldNames(VerbInflections))
            && (forall i :: 0 <= i < 5 ==>
                  BasicNames[i] in m && m[BasicNames[i]] == RowValues(false, DataCells(basicTable, 2).value)[i])
            && (forall i :: 0 <= i < 5 ==>
                  ParticipleNames[i] in m && m[ParticipleNames[i]] == RowValues(true, DataCells(participleTable, 3).value)[i])
            && (forall k :: k in m ==> '+' !in m[k] && Trimmed(m[k]))
  {
    var bv := RowValues(false, DataCells(basicTable, 2).value);
    var pv := RowValues(true, DataCells(participleTable, 3).value);
    assert MergedForms(basicTable, participleTable).value == FormsUpTo(BasicNames, bv, 5) + FormsUpTo(ParticipleNames, pv, 5);
    FormsOfValues(bv, pv);
    RowValuesClean(false, DataCells(basicTable, 2).value);
    RowValuesClean(true, DataCells(participleTable, 3).value);
    CleanFrom(FormsUpTo(BasicNames, bv, 5) + FormsUpTo(ParticipleNames, pv, 5), bv, pv);
  }

  /** The merged dict of any two rows of five forms. */
  lemma FormsOfValues(bv: seq<string>, pv: seq<string>)
    requires |bv| == 5 && |pv| == 5
    ensures var m := FormsUpTo(BasicNames, bv, 5) + FormsUpTo(ParticipleNames, pv, 5);
            && (forall k :: k in m <==> k in FieldNames(VerbInflections))
            && (forall i :: 0 <= i < 5 ==> BasicNames[i] in m && m[BasicNames[i]] == bv[i])
            && (forall i :: 0 <= i < 5 ==> ParticipleNames[i] in m && m[ParticipleNames[i]] == pv[i])
            && (forall k :: k in m ==> m[k] in bv || m[k] in pv)
  {
    BasicNamesDistinct();
    ParticipleNamesDistinct();
    NamesDisjoint();
    VerbFieldNames();
    FormsOfNames(BasicNames, bv, ParticipleNames, pv);
  }

  /** The same for any two disjoint lists of distinct names. */
  lemma FormsOfNames(bn: seq<string>, bv: seq<string>, pn: seq<string>, pv: seq<string>)
    requires |bn| == |bv| && |pn| == |pv|
    requires Distinct(bn) && Distinct(pn)
    requires forall i, j :: 0 <= i < |bn| && 0 <= j < |pn| ==> bn[i] != pn[j]
    ensures var m := FormsUpTo(bn, bv, |bn|) + FormsUpTo(pn, pv, |pn|);
            && (forall k :: k in m <==> k in bn + pn)
            && (forall i :: 0 <= i < |bn| ==> bn[i] in m && m[bn[i]] == bv[i])
            && (forall i :: 0 <= i < |pn| ==> pn[i] in m && m[pn[i]] == pv[i])
            && (forall k :: k in m ==> m[k] in bv || m[k] in pv)
  {
    FullForms(bn, bv);
    FullForms(pn, pv);
    UnionOfTables(FormsUpTo(bn, bv, |bn|), bn, bv, FormsUpTo(pn, pv, |pn|), pn, pv);
  }

  /** The dict the whole loop fills: its keys are the names, each holds its own value. */
  lemma FullForms(names: seq<string>, values: seq<string>)
    requires |names| == |values| && Distinct(names)
    ensures forall k :: k in FormsUpTo(names, values, |names|) <==> k in names
    ensures forall i :: 0 <= i < |names| ==> FormsUpTo(names, values, |names|)[names[i]] == values[i]
    ensures forall k :: k in FormsUpTo(names, values, |names|) ==> FormsUpTo(names, values, |names|)[k] in values
  {
    FormsUpToContents(names, values, |names|);
    FormsUpToValues(names, values, |names|);
    assert names[..|names|] == names && values[..|values|] == values;
  }

  lemma CleanFrom(m: map<string, string>, bv: seq<string>, pv: seq<string>)
    requires forall i :: 0 <= i < |bv| ==> '+' !in bv[i] && Trimmed(bv[i])
    requires forall i :: 0 <= i < |pv| ==> '+' !in pv[i] && Trimmed(pv[i])
    requires forall k :: k in m ==> m[k] in bv || m[k] in pv
    ensures forall k :: k in m ==> '+' !in m[k] && Trimmed(m[k])
  {
  }

  /** `extract_verb_inflections(soup)`: the construction of `VerbInflections` never fails,
      since the ten keys are exactly its fields, and every field is set, lower-cased. */
  method ExtractVerbInflections(ns: seq<Node>) returns (r: Result<Inflections, ParseFailure>)
    ensures VerbForms(ns).Err? ==> r == Err(VerbForms(ns).error)
    ensures VerbForms(ns).Ok? ==> r.Ok? && r.value.kind == VerbInflections && WellFormedInflections(r.value)
    ensures VerbForms(ns).Ok? ==> forall i :: 0 <= i < |r.value.fields| ==>
              FieldNames(VerbInflections)[i] in VerbForms(ns).value &&
              r.value.fields[i].value == Some(Lower(VerbForms(ns).value[FieldNames(VerbInflections)[i]]))
  {
    var all := FindAll(ns, Selector("table", None));
    var tables := if |all| <= 2 then all else all[..2];
    if |tables| != 2 {
      return Err(TableCount(|tables|));
    }
    var basic := ParseVerbBasicInflections(tables[0]);
    if basic.Err? {
      return Err(basic.error);
    }
    var participle := ParseVerbParticipleInflections(tables[1]);
    if participle.Err? {
      return Err(participle.error);
    }
    var forms := basic.value + participle.value;
    assert forms == MergedForms(tables[0], tables[1]).value;
    MergedContents(tables[0], tables[1]);
    var made := NewVerbInflections(forms);
    return Ok(made);
  }

  /** `VerbInflections(**forms)` with exactly the ten fields as keywords: it succeeds,
      and every field holds its keyword's value lower-cased. */
  method NewVerbInflections(forms: map<string, string>) returns (infl: Inflections)
    requires forall k :: k in forms <==> k in FieldNames(VerbInflections)
    ensures infl.kind == VerbInflections && WellFormedInflections(infl)
    ensures forall i :: 0 <= i < |infl.fields| ==>
              FieldNames(VerbInflections)[i] in forms &&
              infl.fields[i].value == Some(Lower(forms[FieldNames(VerbInflections)[i]]))
  {
    var names := FieldNames(VerbInflections);
    assert forall i :: 0 <= i < |names| ==> names[i] in forms;
    var made := NewInflections(VerbInflections, forms);
    infl := made.value;
  }

  /** What extraction returns once both spans are found. */
  lemma WordAndPosFound(ns: seq<Node>, p: seq<nat>, q: seq<nat>)
    requires FindFirst(ns, LookupSpan) == Some(p)
    requires FindFirst(At(ns, p).children, SubheaderSpan) == Some(q)
    ensures SubheaderPath(ns) == Some(p + q)
    ensures WordAndPosOf(ns) == Ok(WordAndPos(HeadwordOf(RemoveAt(At(ns, p).children, q)),
                                              Strip(GetText(At(At(ns, p).children, q).children, ""))))
  {
  }

  /** `extract_word_and_pos(soup)`: reads the part of speech, extracts its span from the
      tree, and reads the headword from what is left of the lookup span. */
  method ExtractWordAndPos(soup: Soup) returns (r: Result<WordAndPos, ParseFailure>)
    requires soup.Valid()
    modifies soup
    ensures soup.Valid() && soup.nextId == old(soup.nextId)
    ensures r == WordAndPosOf(old(soup.root.children))
    ensures r.Ok? ==> soup.root == old(soup.root).(children := RemoveAt(old(soup.root.children), SubheaderPath(old(soup.root.children)).value))
    ensures r.Err? ==> soup.root == old(soup.root)
  {
    var ns := soup.root.children;
    var found := FindFirst(ns, LookupSpan);
    if found.None? {
      assert WordAndPosOf(ns) == Err(NoWordSpan);
      return Err(NoWordSpan);
    }
    var p := found.value;
    var wordSpan := At(ns, p);
    var inner := FindFirst(wordSpan.children, SubheaderSpan);
    if inner.None? {
      assert WordAndPosOf(ns) == Err(NoPartOfSpeechSpan);
      return Err(NoPartOfSpeechSpan);
    }
    var q := inner.value;
    var subheader := At(wordSpan.children, q);
    RemoveBelow(ns, p, q);
    IdsBelowRemoveAt(ns, p + q, soup.nextId);
    soup.root := soup.root.(children := RemoveAt(ns, p + q));
    var partOfSpeech := GetText(subheader.children, "");
    var rest := At(soup.root.children, p).children;
    assert rest == RemoveAt(wordSpan.children, q);
    var word := HeadwordOf(rest);
    partOfSpeech := Strip(partOfSpeech);
    WordAndPosFound(ns, p, q);
    r := Ok(WordAndPos(word, partOfSpeech));
  }
}
