/** The typed record of one dictionary article: definitions, expressions, the
    four inflection tables, and the entry itself, with the validation and the
    lower-casing their construction performs. */
module EntryModel {
  import opened Wrappers
  import opened Strings

  /** The parts of speech an entry may carry, in the order the error message lists them. */
  const ValidPartsOfSpeech: seq<string> :=
    ["verb", "substantiv", "adjektiv", "determinativ",
     "pronomen", "adverb", "preposisjon", "konjunksjon", "interjeksjon"]

  /** One sense: its explanation phrasings and its example sentences. */
  datatype Definition = Definition(definition: seq<string>, examples: seq<string>)

  /** An idiom under the headword, with its own senses. */
  datatype Expression = Expression(expression: string, definitions: seq<Definition>)

  // ---------------------------------------------------------------------------
  // to_lowercase: the values it inspects

  /** A Python value as `to_lowercase` sees it: a string, a list, a dict (its
      entries in insertion order, keys distinct), or any other value (`None`,
      a number, ...), which it leaves alone. */
  datatype PyValue =
    | PyStr(s: string)
    | PyList(items: seq<PyValue>)
    | PyDict(entries: seq<PyPair>)
    | PyNone
    | PyInt(i: int)

  datatype PyPair = PyPair(key: PyValue, value: PyValue)

  /** The keys of a dict, in order. */
  function Keys(es: seq<PyPair>): (r: seq<PyValue>)
    ensures |r| == |es| && forall i :: 0 <= i < |es| ==> r[i] == es[i].key
  {
    if es == [] then [] else [es[0].key] + Keys(es[1..])
  }

  /** A dict's keys are pairwise distinct. */
  predicate DistinctKeys(es: seq<PyPair>) {
    forall i, j :: 0 <= i < j < |es| ==> es[i].key != es[j].key
  }

  /** `d[k] = v`: an existing key keeps its place and takes the new value; a new key goes last. */
  function DictSet(es: seq<PyPair>, k: PyValue, v: PyValue): seq<PyPair> {
    if es == [] then [PyPair(k, v)]
    else if es[0].key == k then [PyPair(k, v)] + es[1..]
    else [es[0]] + DictSet(es[1..], k, v)
  }

  /** After `d[k] = v` the keys are the old ones and `k`. */
  lemma {:induction false} DictSetKeys(es: seq<PyPair>, k: PyValue, v: PyValue)
    ensures forall x :: x in Keys(DictSet(es, k, v)) <==> x in Keys(es) || x == k
  {
    if es != [] && es[0].key != k {
      DictSetKeys(es[1..], k, v);
      assert Keys(es) == [es[0].key] + Keys(es[1..]);
      assert Keys(DictSet(es, k, v)) == [es[0].key] + Keys(DictSet(es[1..], k, v));
    } else if es != [] {
      assert Keys(DictSet(es, k, v)) == [k] + Keys(es[1..]);
      assert Keys(es) == [es[0].key] + Keys(es[1..]);
    }
  }

  /** `d[k] = v` keeps the keys distinct. */
  lemma {:induction false} DictSetDistinct(es: seq<PyPair>, k: PyValue, v: PyValue)
    requires DistinctKeys(es)
    ensures DistinctKeys(DictSet(es, k, v))
  {
    if es != [] {
      var r := DictSet(es, k, v);
      if es[0].key == k {
        assert forall i :: 1 <= i < |es| ==> r[i] == es[i];
      } else {
        var rest := DictSet(es[1..], k, v);
        DictSetDistinct(es[1..], k, v);
        DictSetKeys(es[1..], k, v);
        assert forall i :: 1 <= i < |r| ==> r[i] == rest[i - 1];
        forall i | 1 <= i < |r| ensures r[0].key != r[i].key {
          assert Keys(rest)[i - 1] == r[i].key;
          if r[i].key != k {
            assert r[i].key in Keys(es[1..]);
            var j :| 0 <= j < |es[1..]| && Keys(es[1..])[j] == r[i].key;
            assert es[j + 1].key == r[i].key;
          }
        }
      }
    }
  }

  /** A key not yet present is appended with its value. */
  lemma {:induction false} DictSetNew(es: seq<PyPair>, k: PyValue, v: PyValue)
    requires k !in Keys(es)
    ensures DictSet(es, k, v) == es + [PyPair(k, v)]
  {
    if es != [] {
      assert es[0].key != k by {
        assert Keys(es)[0] == es[0].key;
      }
      assert k !in Keys(es[1..]) by {
        assert Keys(es) == [es[0].key] + Keys(es[1..]);
      }
      DictSetNew(es[1..], k, v);
      calc {
        DictSet(es, k, v);
        [es[0]] + (es[1..] + [PyPair(k, v)]);
        { assert es == [es[0]] + es[1..]; }
        es + [PyPair(k, v)];
      }
    }
  }

  /** Every entry after `d[k] = v` is the new one or an old one. */
  lemma {:induction false} DictSetOrigin(es: seq<PyPair>, k: PyValue, v: PyValue)
    ensures forall a :: 0 <= a < |DictSet(es, k, v)| ==> DictSet(es, k, v)[a] == PyPair(k, v) || DictSet(es, k, v)[a] in es
  {
    if es != [] {
      var r := DictSet(es, k, v);
      if es[0].key == k {
        assert forall a :: 1 <= a < |r| ==> r[a] == es[a];
      } else {
        DictSetOrigin(es[1..], k, v);
        var rest := DictSet(es[1..], k, v);
        assert forall a :: 1 <= a < |r| ==> r[a] == rest[a - 1];
        assert forall x :: x in es[1..] ==> x in es;
      }
    }
  }

  /** `Inflections.to_lowercase`: strings lower-cased, lists and dicts mapped
      over recursively (dict keys too), every other value returned as it is. */
  function ToLowercase(v: PyValue): (r: PyValue)
    ensures r.PyStr? == v.PyStr? && r.PyList? == v.PyList? && r.PyDict? == v.PyDict?
    ensures v.PyStr? ==> |r.s| == |v.s|
    ensures v.PyList? ==> |r.items| == |v.items|
    ensures v.PyNone? || v.PyInt? ==> r == v
    decreases v
  {
    match v
    case PyStr(s) => PyStr(Lower(s))
    case PyList(items) => PyList(LowercaseItems(items))
    case PyDict(es) => PyDict(LowercaseEntries(es, []))
    case PyNone => v
    case PyInt(_) => v
  }

  /** The list comprehension: one lower-cased element per element, in order. */
  function LowercaseItems(items: seq<PyValue>): (r: seq<PyValue>)
    ensures |r| == |items|
    ensures forall k :: 0 <= k < |items| ==> r[k] == ToLowercase(items[k])
    decreases items
  {
    if items == [] then [] else [ToLowercase(items[0])] + LowercaseItems(items[1..])
  }

  /** One dict entry with key and value lower-cased. */
  function LowercasePair(p: PyPair): PyPair
    decreases p
  {
    PyPair(ToLowercase(p.key), ToLowercase(p.value))
  }

  /** The dict comprehension: the entries of `es`, key and value lower-cased,
      inserted in order into `acc`. */
  function LowercaseEntries(es: seq<PyPair>, acc: seq<PyPair>): seq<PyPair>
    decreases es
  {
    if es == [] then acc
    else
      var p := LowercasePair(es[0]);
      LowercaseEntries(es[1..], DictSet(acc, p.key, p.value))
  }

  /** Each entry lower-cased in place, as a reference for the dict comprehension. */
  function LowercasePairs(es: seq<PyPair>): (r: seq<PyPair>)
    ensures |r| == |es| && forall i :: 0 <= i < |es| ==> r[i] == LowercasePair(es[i])
  {
    if es == [] then [] else [LowercasePair(es[0])] + LowercasePairs(es[1..])
  }

  /** The lower-cased dict is a dict: its keys are distinct and are exactly the lower-cased keys. */
  lemma {:induction false} LowercaseEntriesKeys(es: seq<PyPair>, acc: seq<PyPair>)
    requires DistinctKeys(acc)
    ensures DistinctKeys(LowercaseEntries(es, acc))
    ensures forall x :: x in Keys(LowercaseEntries(es, acc)) <==> x in Keys(acc) || x in Keys(LowercasePairs(es))
  {
    if es != [] {
      var p := LowercasePair(es[0]);
      var acc' := DictSet(acc, p.key, p.value);
      DictSetDistinct(acc, p.key, p.value);
      DictSetKeys(acc, p.key, p.value);
      LowercaseEntriesKeys(es[1..], acc');
      assert LowercasePairs(es) == [p] + LowercasePairs(es[1..]);
      assert Keys(LowercasePairs(es)) == [p.key] + Keys(LowercasePairs(es[1..]));
    }
  }

  /** When no two keys collide after lower-casing, the dict comprehension maps
      each entry in place: same length, same order. */
  lemma {:induction false} LowercaseEntriesPointwise(es: seq<PyPair>, acc: seq<PyPair>)
    requires DistinctKeys(acc + LowercasePairs(es))
    ensures LowercaseEntries(es, acc) == acc + LowercasePairs(es)
  {
    if es != [] {
      var all := LowercasePairs(es);
      var p := all[0];
      assert p.key !in Keys(acc) by {
        var whole := acc + all;
        assert whole[|acc|] == p;
        forall j | 0 <= j < |acc| ensures Keys(acc)[j] != p.key {
          assert whole[j] == acc[j];
        }
      }
      DictSetNew(acc, p.key, p.value);
      var acc' := acc + [p];
      var tail := LowercasePairs(es[1..]);
      assert all == [p] + tail;
      assert acc' + tail == acc + all;
      LowercaseEntriesPointwise(es[1..], acc');
    }
  }

  /** `to_lowercase` on a dict whose keys do not collide once lower-cased maps entry by entry. */
  lemma ToLowercaseDictPointwise(es: seq<PyPair>)
    requires DistinctKeys(LowercasePairs(es))
    ensures ToLowercase(PyDict(es)) == PyDict(LowercasePairs(es))
  {
    assert [] + LowercasePairs(es) == LowercasePairs(es);
    LowercaseEntriesPointwise(es, []);
    assert [] + LowercasePairs(es) == LowercasePairs(es);
  }

  /** Every entry of `LowercaseEntries(es, acc)` comes from `acc` or is an entry of `es` lower-cased. */
  lemma {:induction false} EntriesOrigin(es: seq<PyPair>, acc: seq<PyPair>)
    ensures forall a :: 0 <= a < |LowercaseEntries(es, acc)| ==>
              LowercaseEntries(es, acc)[a] in acc || LowercaseEntries(es, acc)[a] in LowercasePairs(es)
  {
    if es != [] {
      var p := LowercasePair(es[0]);
      var acc' := DictSet(acc, p.key, p.value);
      DictSetOrigin(acc, p.key, p.value);
      EntriesOrigin(es[1..], acc');
      var l := LowercasePairs(es);
      assert l == [p] + LowercasePairs(es[1..]);
      assert forall x :: x in acc' ==> x == p || x in acc;
      assert forall x :: x in LowercasePairs(es[1..]) ==> x in l;
    }
  }

  /** Lower-casing an already lower-cased value changes nothing. */
  lemma {:induction false} ToLowercaseIdempotent(v: PyValue)
    ensures ToLowercase(ToLowercase(v)) == ToLowercase(v)
    decreases v
  {
    match v
    case PyStr(s) => LowerIdempotent(s);
    case PyList(items) => ItemsIdempotent(items);
    case PyDict(es) => EntriesIdempotent(es);
    case PyNone =>
    case PyInt(_) =>
  }

  lemma {:induction false} ItemsIdempotent(items: seq<PyValue>)
    ensures LowercaseItems(LowercaseItems(items)) == LowercaseItems(items)
    decreases items
  {
    forall k | 0 <= k < |items| ensures ToLowercase(ToLowercase(items[k])) == ToLowercase(items[k]) {
      ToLowercaseIdempotent(items[k]);
    }
  }

  lemma {:induction false} PairIdempotent(p: PyPair)
    ensures LowercasePair(LowercasePair(p)) == LowercasePair(p)
    decreases p
  {
    ToLowercaseIdempotent(p.key);
    ToLowercaseIdempotent(p.value);
  }

  /** The second pass over a lower-cased dict maps it entry by entry onto itself. */
  lemma {:induction false} EntriesIdempotent(es: seq<PyPair>)
    ensures LowercaseEntries(LowercaseEntries(es, []), []) == LowercaseEntries(es, [])
    decreases es
  {
    var r := LowercaseEntries(es, []);
    LowercaseEntriesKeys(es, []);
    EntriesOrigin(es, []);
    forall i | 0 <= i < |r| ensures LowercasePair(r[i]) == r[i] {
      var j :| 0 <= j < |es| && r[i] == LowercasePairs(es)[j];
      PairIdempotent(es[j]);
    }
    var l := LowercasePairs(r);
    assert l == r;
    assert [] + l == r;
    LowercaseEntriesPointwise(r, []);
  }

  // ---------------------------------------------------------------------------
  // The inflection tables

  /** Which of the four inflection dataclasses a table is. */
  datatype InflectionKind = NounInflections | VerbInflections | DeterminativeInflections | AdjectiveInflections

  /** The dataclass fields of each kind, in declaration order. */
  function FieldNames(kind: InflectionKind): (r: seq<string>)
    ensures forall i, j :: 0 <= i < j < |r| ==> r[i] != r[j]
  {
    match kind
    case NounInflections =>
      ["entall_bestemt_form", "entall_ubestemt_form", "flertall_bestemt_form", "flertall_ubestemt_form"]
    case VerbInflections =>
      ["infinitiv", "presens", "preteritum", "presens_perfektum", "imperativ",
       "perfektum_partisipp_hankjonn", "perfektum_partisipp_intetkjonn",
       "perfektum_partisipp_bestemt_form", "perfektum_partisipp_flertall", "presens_partisipp"]
    case DeterminativeInflections =>
      ["entall_hankjonn", "entall_hunkjonn", "entall_intetkjonn", "flertall"]
    case AdjectiveInflections =>
      ["entall_hankjonn", "entall_intetkjonn", "bestempt_form", "flertall",
       "komparativ", "superlativ_ubestemt_form", "superlativ_bestemt_form"]
  }

  /** How many leading fields have no default: the verb's participles and
      imperative default to `None`, every other field is required. */
  function RequiredCount(kind: InflectionKind): (n: nat)
    ensures n <= |FieldNames(kind)|
  {
    if kind == VerbInflections then 4 else |FieldNames(kind)|
  }

  /** One attribute of an inflection table: its name and its value, `None` when unset. */
  datatype Field = Field(name: string, value: Option<string>)

  /** An inflection table: its kind and its attributes in `vars()` order. */
  datatype Inflections = Inflections(kind: InflectionKind, fields: seq<Field>)

  /** The attributes are exactly the kind's fields, in order, with every required one set. */
  predicate WellFormedInflections(infl: Inflections) {
    && |infl.fields| == |FieldNames(infl.kind)|
    && (forall i :: 0 <= i < |infl.fields| ==> infl.fields[i].name == FieldNames(infl.kind)[i])
    && (forall i :: 0 <= i < RequiredCount(infl.kind) ==> infl.fields[i].value.Some?)
  }

  /** The Python value a field holds. */
  function AsPyValue(v: Option<string>): PyValue {
    match v
    case Some(s) => PyStr(s)
    case None => PyNone
  }

  /** The errors construction raises: `TypeError` from binding the dataclass's
      keyword arguments, `ValueError` from the entry's own checks. */
  datatype ConstructionError =
    | UnexpectedKeywords(unexpected: set<string>)
    | MissingArguments(missing: seq<string>)
    | InvalidPartOfSpeech(partOfSpeech: string)
    | MissingGender

  /** The names, in field order, of the required fields `kw` does not supply. */
  function MissingRequired(names: seq<string>, required: nat, kw: map<string, string>): (r: seq<string>)
    requires required <= |names|
    ensures forall k :: 0 <= k < |r| ==> r[k] !in kw
    ensures r == [] <==> forall i :: 0 <= i < required ==> names[i] in kw
  {
    if required == 0 then []
    else
      var rest := MissingRequired(names[1..], required - 1, kw);
      assert forall i :: 1 <= i < required ==> names[i] == names[1..][i - 1];
      (if names[0] in kw then [] else [names[0]]) + rest
  }

  /** The dataclass `__init__` called with keyword arguments `kw`: every field gets its
      keyword's value or its default `None`; an unknown keyword or a missing required
      field raises. */
  function BindKeywords(kind: InflectionKind, kw: map<string, string>): (r: Result<seq<Field>, ConstructionError>)
    ensures r.Ok? <==> (forall k :: k in kw ==> k in FieldNames(kind))
                       && (forall i :: 0 <= i < RequiredCount(kind) ==> FieldNames(kind)[i] in kw)
    ensures r.Ok? ==> |r.value| == |FieldNames(kind)|
                      && forall i :: 0 <= i < |r.value| ==> r.value[i] == Field(FieldNames(kind)[i],
                           if FieldNames(kind)[i] in kw then Some(kw[FieldNames(kind)[i]]) else None)
  {
    var names := FieldNames(kind);
    var missing := MissingRequired(names, RequiredCount(kind), kw);
    if exists k :: k in kw && k !in names then
      Err(UnexpectedKeywords(set k | k in kw && k !in names))
    else if missing != [] then
      assert missing[0] !in kw;
      Err(MissingArguments(missing))
    else
      Ok(seq(|names|, i requires 0 <= i < |names| => Field(names[i], if names[i] in kw then Some(kw[names[i]]) else None)))
  }

  /** `Inflections.__post_init__`: every attribute, in `vars()` order, is replaced by
      `to_lowercase` of its value. */
  method PostInitInflections(fields: seq<Field>) returns (r: seq<Field>)
    ensures |r| == |fields|
    ensures forall i :: 0 <= i < |r| ==> r[i].name == fields[i].name
    ensures forall i :: 0 <= i < |r| ==> AsPyValue(r[i].value) == ToLowercase(AsPyValue(fields[i].value))
  {
    r := [];
    var i := 0;
    while i < |fields|
      invariant 0 <= i <= |fields| && |r| == i
      invariant forall k :: 0 <= k < i ==> r[k].name == fields[k].name
      invariant forall k :: 0 <= k < i ==> AsPyValue(r[k].value) == ToLowercase(AsPyValue(fields[k].value))
    {
      var v := match fields[i].value case Some(s) => Some(Lower(s)) case None => None;
      r := r + [Field(fields[i].name, v)];
      i := i + 1;
    }
  }

  /** Lower-casing bound keyword values field by field: each value is the lower-cased
      keyword value, or `None` when the keyword was not given. */
  lemma LoweredFields(names: seq<string>, kw: map<string, string>, bound: seq<Field>, fields: seq<Field>)
    requires |bound| == |names| && |fields| == |bound|
    requires forall i :: 0 <= i < |bound| ==> bound[i] == Field(names[i], if names[i] in kw then Some(kw[names[i]]) else None)
    requires forall i :: 0 <= i < |fields| ==> fields[i].name == bound[i].name
    requires forall i :: 0 <= i < |fields| ==> AsPyValue(fields[i].value) == ToLowercase(AsPyValue(bound[i].value))
    ensures forall i :: 0 <= i < |fields| ==> fields[i].name == names[i]
    ensures forall i :: 0 <= i < |fields| ==> fields[i].value == (if names[i] in kw then Some(Lower(kw[names[i]])) else None)
  {
    forall i | 0 <= i < |fields|
      ensures fields[i].value == (if names[i] in kw then Some(Lower(kw[names[i]])) else None)
    {
      var o := bound[i].value;
      assert AsPyValue(fields[i].value) == ToLowercase(AsPyValue(o));
      if names[i] in kw {
        assert o == Some(kw[names[i]]);
      } else {
        assert o == None;
      }
    }
  }

  /** Constructing an inflection dataclass from keyword arguments: bind, then
      lower-case every attribute. */
  method NewInflections(kind: InflectionKind, kw: map<string, string>) returns (r: Result<Inflections, ConstructionError>)
    ensures r.Ok? <==> BindKeywords(kind, kw).Ok?
    ensures r.Err? ==> r == Err(BindKeywords(kind, kw).error)
    ensures r.Ok? ==> r.value.kind == kind && WellFormedInflections(r.value)
    ensures r.Ok? ==> forall i :: 0 <= i < |r.value.fields| ==>
              r.value.fields[i].value == (if FieldNames(kind)[i] in kw then Some(Lower(kw[FieldNames(kind)[i]])) else None)
  {
    var bound := BindKeywords(kind, kw);
    if bound.Err? {
      return Err(bound.error);
    }
    var fields := PostInitInflections(bound.value);
    LoweredInflections(kind, kw, bound.value, fields);
    r := Ok(Inflections(kind, fields));
  }

  /** The bound fields of a successful binding, lower-cased, form a well-formed table
      holding the lower-cased keyword values. */
  lemma LoweredInflections(kind: InflectionKind, kw: map<string, string>, bound: seq<Field>, fields: seq<Field>)
    requires BindKeywords(kind, kw) == Ok(bound)
    requires |fields| == |bound|
    requires forall i :: 0 <= i < |fields| ==> fields[i].name == bound[i].name
    requires forall i :: 0 <= i < |fields| ==> AsPyValue(fields[i].value) == ToLowercase(AsPyValue(bound[i].value))
    ensures WellFormedInflections(Inflections(kind, fields))
    ensures forall i :: 0 <= i < |fields| ==>
              fields[i].value == (if FieldNames(kind)[i] in kw then Some(Lower(kw[FieldNames(kind)[i]])) else None)
  {
    var names := FieldNames(kind);
    LoweredFields(names, kw, bound, fields);
    forall i | 0 <= i < RequiredCount(kind)
      ensures fields[i].value.Some?
    {
      assert names[i] in kw;
    }
  }

  // ---------------------------------------------------------------------------
  // The entry

  /** One dictionary article. */
  datatype DictionaryEntry = DictionaryEntry(
    id: int,
    word: string,
    partOfSpeech: string,
    definitions: seq<Definition>,
    gender: Option<string>,
    inflections: Option<Inflections>,
    expressions: seq<Expression>)

  /** Python truthiness of an optional string: present and non-empty. */
  predicate Truthy(s: Option<string>) {
    s.Some? && s.value != ""
  }

  /** What construction guarantees of every entry. */
  predicate ValidEntry(e: DictionaryEntry) {
    && e.word == Lower(e.word)
    && e.partOfSpeech == Lower(e.partOfSpeech)
    && e.partOfSpeech in ValidPartsOfSpeech
    && (e.partOfSpeech == "substantiv" ==> Truthy(e.gender))
  }

  /** `DictionaryEntry(...)` with its `__post_init__`: headword and part of speech
      lower-cased, then the part of speech checked against the nine valid ones, then
      a noun checked for a gender. */
  function NewEntry(id: int, word: string, partOfSpeech: string, definitions: seq<Definition>,
                    gender: Option<string>, inflections: Option<Inflections>, expressions: seq<Expression>)
    : (r: Result<DictionaryEntry, ConstructionError>)
    ensures r.Ok? <==> Lower(partOfSpeech) in ValidPartsOfSpeech && (Lower(partOfSpeech) == "substantiv" ==> Truthy(gender))
    ensures r.Ok? ==> ValidEntry(r.value)
    ensures r.Ok? ==> r.value.word == Lower(word) && r.value.partOfSpeech == Lower(partOfSpeech)
    ensures r.Ok? ==> r.value.gender == gender && r.value.id == id && r.value.definitions == definitions
                      && r.value.inflections == inflections && r.value.expressions == expressions
    ensures Lower(partOfSpeech) !in ValidPartsOfSpeech ==> r == Err(InvalidPartOfSpeech(Lower(partOfSpeech)))
    ensures Lower(partOfSpeech) in ValidPartsOfSpeech && !r.Ok? ==> r == Err(MissingGender)
  {
    var w := Lower(word);
    var pos := Lower(partOfSpeech);
    LowerIdempotent(word);
    LowerIdempotent(partOfSpeech);
    if pos !in ValidPartsOfSpeech then Err(InvalidPartOfSpeech(pos))
    else if pos == "substantiv" && !Truthy(gender) then Err(MissingGender)
    else Ok(DictionaryEntry(id, w, pos, definitions, gender, inflections, expressions))
  }

  /** Rebuilding an entry from its own fields gives the same entry back: construction
      accepts exactly what it produces and then changes nothing. */
  lemma NewEntryOfValid(e: DictionaryEntry)
    requires ValidEntry(e)
    ensures NewEntry(e.id, e.word, e.partOfSpeech, e.definitions, e.gender, e.inflections, e.expressions) == Ok(e)
  {
  }

  /** The message of each `ValueError` the entry's checks raise. */
  function ValueErrorMessage(e: ConstructionError): (r: string)
    requires e.InvalidPartOfSpeech? || e.MissingGender?
    ensures e.InvalidPartOfSpeech? ==> PartOfSpeechPrefix + e.partOfSpeech + "'" <= r
    ensures |r| > 0 && (r[0] == 'I' <==> e.InvalidPartOfSpeech?)
  {
    match e
    case InvalidPartOfSpeech(pos) =>
      PartOfSpeechPrefix + pos + "'" + PartOfSpeechList
    case MissingGender => "Gender must be specified for a noun entry."
  }

  const PartOfSpeechPrefix: string := "Invalid part of speech '"
  const PartOfSpeechList: string := ".Must be one of " + Join(ValidPartsOfSpeech, ", ") + "."

  /** A message framed by the same text on both sides determines what it frames. */
  lemma FrameCancel(p: string, a: string, b: string, c: string, q: string)
    requires p + a + c + q == p + b + c + q
    ensures a == b
  {
    var m := p + a + c + q;
    assert |a| == |b|;
    assert a == m[|p|..|p| + |a|];
    assert b == (p + b + c + q)[|p|..|p| + |b|];
  }

  /** Different errors give different messages: the message names the error, and
      the rejected part of speech can be read back from it. */
  lemma ValueErrorMessageInjective(e1: ConstructionError, e2: ConstructionError)
    requires e1.InvalidPartOfSpeech? || e1.MissingGender?
    requires e2.InvalidPartOfSpeech? || e2.MissingGender?
    requires ValueErrorMessage(e1) == ValueErrorMessage(e2)
    ensures e1 == e2
  {
    if e1.InvalidPartOfSpeech? && e2.InvalidPartOfSpeech? {
      FrameCancel(PartOfSpeechPrefix, e1.partOfSpeech, e2.partOfSpeech, "'", PartOfSpeechList);
    }
  }
}
