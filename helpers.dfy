/**
 * The helpers Former's field classes share (src/Former/Helpers.php): adding
 * a CSS class and rendering HTML attributes, translating labels through a
 * chain of fallbacks, turning query results into option lists, and choosing
 * the class that renders a field.
 *
 * The application container the PHP class holds is not modelled as state:
 * the translation catalog, the configured namespace, the entity escaper and
 * the class registry are passed to the operations that use them.
 */
module Helpers {
  import opened Wrappers
  import opened PhpStrings
  import opened PhpArrays

  // ==================================================================
  // HTML helpers

  /** An array of HTML attributes; a None value is PHP's null. */
  type AttributeArray = PhpArray<Option<string>>

  const CLASS_KEY: Key := Str("class")

  /** isset($attributes['class']) is false: the class attribute is absent or null. */
  predicate ClassUnset(attributes: AttributeArray) {
    var v := Lookup(attributes, CLASS_KEY);
    v.None? || v.value.None?
  }

  /** The class attribute as addClass reads it: "" when it is unset. */
  function ClassText(attributes: AttributeArray): string {
    if ClassUnset(attributes) then "" else Lookup(attributes, CLASS_KEY).value.value
  }

  /** What addClass makes of an attribute array: the class attribute keeps its
      text when that already contains the new class, and otherwise becomes the
      trimmed concatenation of the old text, a space and the new class. */
  function ClassAdded(attributes: AttributeArray, c: string): AttributeArray {
    var current := ClassText(attributes);
    Assign(attributes, CLASS_KEY, Some(if Contains(current, c) then current else Trim(current + " " + c)))
  }

  /** addClass($attributes, $class). */
  method AddClass(attributes: AttributeArray, c: string) returns (result: AttributeArray)
    ensures result == ClassAdded(attributes, c)
    ensures forall k :: k != CLASS_KEY ==> Lookup(result, k) == Lookup(attributes, k)
    ensures KeysOf(result) == if CLASS_KEY in KeysOf(attributes) then KeysOf(attributes)
                              else KeysOf(attributes) + [CLASS_KEY]
    ensures Contains(ClassText(attributes), c) ==> result == attributes
    ensures !Contains(ClassText(attributes), c) ==>
              Lookup(result, CLASS_KEY) == Some(Some(Trim(ClassText(attributes) + " " + c)))
  {
    result := attributes;
    var unset := ClassUnset(result);
    if unset {
      result := Assign(result, CLASS_KEY, None);
    }
    var text := Lookup(result, CLASS_KEY).value.GetOr("");
    assert text == ClassText(attributes);
    if !Contains(text, c) {
      if unset {
        AssignTwice(attributes, CLASS_KEY, None, Some(Trim(text + " " + c)));
      }
      result := Assign(result, CLASS_KEY, Some(Trim(text + " " + c)));
    } else {
      AddClassKeepsContained(attributes, c);
    }
    ClassAddedFrame(attributes, c);
  }

  /** addClass touches the class attribute only: every other key keeps its
      value, and the keys keep their order, "class" being appended when it
      was absent. */
  lemma ClassAddedFrame(attributes: AttributeArray, c: string)
    ensures forall k :: k != CLASS_KEY ==> Lookup(ClassAdded(attributes, c), k) == Lookup(attributes, k)
    ensures KeysOf(ClassAdded(attributes, c)) ==
              if CLASS_KEY in KeysOf(attributes) then KeysOf(attributes) else KeysOf(attributes) + [CLASS_KEY]
  {
    var current := ClassText(attributes);
    AssignKeys(attributes, CLASS_KEY, Some(if Contains(current, c) then current else Trim(current + " " + c)));
  }

  /** When the class attribute already contains the class, addClass returns
      the attributes unchanged. */
  lemma AddClassKeepsContained(attributes: AttributeArray, c: string)
    requires Contains(ClassText(attributes), c)
    ensures ClassAdded(attributes, c) == attributes
  {
    NothingInEmpty(c);
    AssignSame(attributes, CLASS_KEY, Some(ClassText(attributes)));
  }

  /** The trimmed concatenation addClass builds contains the added word, and
      is that word alone when the old text was empty. */
  lemma JoinedClassContainsWord(current: string, w: string)
    requires IsWord(w)
    ensures Contains(Trim(current + " " + w), w)
    ensures current == "" ==> Trim(current + " " + w) == w
  {
    TrimEndingInWord(current + " ", w);
    assert current + " " + w == (current + " ") + w;
    ContainsSuffix(TrimLeft(current + " "), w);
    if current == "" {
      assert current + " " == " ";
      assert TrimLeft(" ") == "";
    }
  }

  /** Adding a class w (a word: non-empty, no surrounding white space) leaves
      a class attribute that contains w, and that is exactly w when the class
      attribute was unset. */
  lemma AddClassContainsWord(attributes: AttributeArray, w: string)
    requires IsWord(w)
    ensures Contains(ClassText(ClassAdded(attributes, w)), w)
    ensures ClassUnset(attributes) ==> Lookup(ClassAdded(attributes, w), CLASS_KEY) == Some(Some(w))
  {
    var current := ClassText(attributes);
    JoinedClassContainsWord(current, w);
    NothingInEmpty(w);
    var t := if Contains(current, w) then current else Trim(current + " " + w);
    assert Lookup(ClassAdded(attributes, w), CLASS_KEY) == Some(Some(t));
    assert ClassText(ClassAdded(attributes, w)) == t;
  }

  /** addClass is idempotent for a class that is a word. */
  lemma AddClassIdempotent(attributes: AttributeArray, w: string)
    requires IsWord(w)
    ensures ClassAdded(ClassAdded(attributes, w), w) == ClassAdded(attributes, w)
  {
    AddClassContainsWord(attributes, w);
    AddClassKeepsContained(ClassAdded(attributes, w), w);
  }

  /** is_numeric($key): integer keys always, string keys when they read as a number. */
  predicate IsNumericKey(k: Key) {
    k.Num? || IsNumericString(k.s)
  }

  /** One rendered attribute, name="escaped value", where the name of an
      entry with a numeric key is its value (required="required"). */
  function AttributePair(k: Key, value: string, escape: string -> string): string {
    (if IsNumericKey(k) then value else k.s) + "=\"" + escape(value) + "\""
  }

  /** The rendered pairs of the entries whose value is not null, in order. */
  function RenderedPairs(attributes: AttributeArray, escape: string -> string): seq<string>
    decreases |attributes|
  {
    if attributes == [] then []
    else
      var (k, v) := attributes[|attributes| - 1];
      RenderedPairs(attributes[..|attributes| - 1], escape) +
        (if v.Some? then [AttributePair(k, v.value, escape)] else [])
  }

  /** What attributes() returns for an attribute array; None stands for false. */
  function AttributeString(attributes: AttributeArray, escape: string -> string): Option<string> {
    var pairs := RenderedPairs(attributes, escape);
    if pairs == [] then None else Some(" " + Implode(" ", pairs))
  }

  /** attributes($attributes), with the entity escaper passed in as `escape`. */
  method Attributes(attributes: AttributeArray, escape: string -> string) returns (html: Option<string>)
    ensures html == AttributeString(attributes, escape)
    ensures html.None? <==> forall i :: 0 <= i < |attributes| ==> attributes[i].1.None?
  {
    var pairs: seq<string> := [];
    for i := 0 to |attributes|
      invariant pairs == RenderedPairs(attributes[..i], escape)
    {
      var (key, value) := attributes[i];
      var name := if key.Str? then key.s else "";
      if IsNumericKey(key) {
        name := value.GetOr("");
      }
      if value.Some? {
        pairs := pairs + [name + "=\"" + escape(value.value) + "\""];
      }
      assert attributes[..i + 1][..i] == attributes[..i];
    }
    assert attributes[..|attributes|] == attributes;
    NoPairsIffAllNull(attributes, escape);
    if |pairs| == 0 {
      return None;
    }
    html := Some(" " + Implode(" ", pairs));
  }

  /** attributes() renders nothing exactly when every value is null. */
  lemma {:induction false} NoPairsIffAllNull(attributes: AttributeArray, escape: string -> string)
    ensures RenderedPairs(attributes, escape) == [] <==>
              forall i :: 0 <= i < |attributes| ==> attributes[i].1.None?
    decreases |attributes|
  {
    if attributes != [] {
      var init := attributes[..|attributes| - 1];
      NoPairsIffAllNull(init, escape);
      assert forall i :: 0 <= i < |init| ==> init[i] == attributes[i];
    }
  }

  /** Rendering a concatenation renders each part in turn. */
  lemma {:induction false} RenderedPairsConcat(a: AttributeArray, b: AttributeArray, escape: string -> string)
    ensures RenderedPairs(a + b, escape) == RenderedPairs(a, escape) + RenderedPairs(b, escape)
    decreases |b|
  {
    if b == [] {
      assert a + b == a;
    } else {
      var b' := b[..|b| - 1];
      assert (a + b)[..|a + b| - 1] == a + b';
      RenderedPairsConcat(a, b', escape);
    }
  }

  /** How the results of attributes() on two arrays make up its result on
      their concatenation. */
  function JoinAttributeStrings(x: Option<string>, y: Option<string>): Option<string> {
    match (x, y)
    case (None, _) => y
    case (_, None) => x
    case (Some(s), Some(t)) => Some(s + t)
  }

  /** attributes() of a concatenation is the concatenation of the two results,
      false on either side contributing nothing. Together with the two lemmas
      below, this determines attributes() on every array. */
  lemma AttributesConcat(a: AttributeArray, b: AttributeArray, escape: string -> string)
    ensures AttributeString(a + b, escape) ==
              JoinAttributeStrings(AttributeString(a, escape), AttributeString(b, escape))
  {
    var p, q := RenderedPairs(a, escape), RenderedPairs(b, escape);
    RenderedPairsConcat(a, b, escape);
    if p != [] && q != [] {
      ImplodeConcat(" ", p, q);
      assert " " + Implode(" ", p + q) == (" " + Implode(" ", p)) + (" " + Implode(" ", q));
    } else if p == [] {
      assert p + q == q;
    } else {
      assert p + q == p;
    }
  }

  /** An entry with a value renders as one pair behind a single space. */
  lemma AttributesOfOne(k: Key, value: string, escape: string -> string)
    ensures AttributeString([(k, Some(value))], escape) == Some(" " + AttributePair(k, value, escape))
  {
    var a: AttributeArray := [(k, Some(value))];
    assert a[..0] == [];
    assert RenderedPairs(a, escape) == [AttributePair(k, value, escape)];
  }

  /** An entry whose value is null renders as false. */
  lemma AttributesOfNull(k: Key, escape: string -> string)
    ensures AttributeString([(k, None)], escape) == None
  {
    var a: AttributeArray := [(k, None)];
    assert a[..0] == [];
    assert RenderedPairs(a, escape) == [];
  }

  // ==================================================================
  // Localization helpers

  /** An entry of the translation catalog: a line of text, or a group of
      lines (the translator returns a PHP array for a key naming a group). */
  datatype Entry = Line(text: string) | Group

  /** The fallback translate() settles on: the given one when it is truthy, the key otherwise. */
  function FallbackFor(key: string, fallback: Option<string>): string {
    if fallback.Some? && TruthyString(fallback.value) then fallback.value else key
  }

  /** The catalog key tried second: the configured namespace, a dot, the key. */
  function NamespacedKey(namespace: string, key: string): string {
    namespace + "." + key
  }

  /** translate($key, $fallback), for the catalog the translator reads and the
      namespace configured as former::translate_from; None stands for null. */
  function Translate(key: string, fallback: Option<string>, catalog: map<string, Entry>, namespace: string): (r: Option<string>)
    ensures r.None? <==> !TruthyString(key)
    ensures TruthyString(key) && key in catalog && catalog[key].Line? ==>
              r == Some(UcFirst(catalog[key].text))
    ensures TruthyString(key) && key !in catalog && NamespacedKey(namespace, key) in catalog
            && catalog[NamespacedKey(namespace, key)].Line? ==>
              r == Some(UcFirst(catalog[NamespacedKey(namespace, key)].text))
    ensures TruthyString(key) && (key in catalog ==> catalog[key].Group?)
            && (key !in catalog && NamespacedKey(namespace, key) in catalog ==> catalog[NamespacedKey(namespace, key)].Group?) ==>
              r == Some(UcFirst(FallbackFor(key, fallback)))
  {
    if !TruthyString(key) then None
    else
      var fb := FallbackFor(key, fallback);
      var translation :=
        if key in catalog then catalog[key]
        else if NamespacedKey(namespace, key) in catalog then catalog[NamespacedKey(namespace, key)]
        else Line(fb);
      Some(UcFirst(if translation.Group? then fb else translation.text))
  }

  /** A missing, empty or "0" fallback is the same as the key given as fallback. */
  lemma TranslateDefaultFallback(key: string, fallback: Option<string>, catalog: map<string, Entry>, namespace: string)
    requires fallback.None? || !TruthyString(fallback.value)
    ensures Translate(key, fallback, catalog, namespace) == Translate(key, Some(key), catalog, namespace)
  {
  }

  /** The result of translate() starts with no lower-case ASCII letter. */
  lemma TranslateCapitalised(key: string, fallback: Option<string>, catalog: map<string, Entry>, namespace: string)
    requires TruthyString(key)
    ensures var r := Translate(key, fallback, catalog, namespace).value;
            r == [] || !IsLowerAscii(r[0])
  {
  }

  /** translate() reads the catalog at two keys only: the key and its
      namespaced form. */
  lemma TranslateReadsTwoEntries(key: string, fallback: Option<string>, c1: map<string, Entry>, c2: map<string, Entry>, namespace: string)
    requires forall k :: k in {key, NamespacedKey(namespace, key)} ==> (k in c1 <==> k in c2) && (k in c1 ==> c1[k] == c2[k])
    ensures Translate(key, fallback, c1, namespace) == Translate(key, fallback, c2, namespace)
  {
    assert key in {key, NamespacedKey(namespace, key)};
    assert NamespacedKey(namespace, key) in {key, NamespacedKey(namespace, key)};
  }

  // ==================================================================
  // Database helpers

  /** A PHP value held by a record or returned by get_key(). Floats, arrays
      and objects are not modelled. */
  datatype Scalar = Null | Bool(b: bool) | Int(i: Int64) | Text(s: string)

  /** PHP truthiness: null, false, 0, "" and "0" are falsy. */
  predicate Truthy(x: Scalar) {
    match x
    case Null => false
    case Bool(b) => b
    case Int(i) => i != 0
    case Text(s) => TruthyString(s)
  }

  /** (string)$x. */
  function AsString(x: Scalar): string {
    match x
    case Null => ""
    case Bool(b) => if b then "1" else ""
    case Int(i) => IntToString(i)
    case Text(s) => s
  }

  /** The array key $x becomes in $array[$x]: null is "", booleans are 0 and
      1, and a string that spells a canonical integer is that integer. */
  function AsKey(x: Scalar): Key {
    match x
    case Null => Str("")
    case Bool(b) => Num(if b then 1 else 0)
    case Int(i) => Num(i)
    case Text(s) => StringKey(s)
  }

  /** A truthy value casts to a truthy string. */
  lemma TruthyAsString(x: Scalar)
    requires Truthy(x)
    ensures TruthyString(AsString(x))
  {
    if x.Int? {
      IntToStringTruthy(x.i);
    }
  }

  /** A record of a query result: its attributes (an associative array is
      cast to an object holding them), and, when its class defines them, what
      its __toString() and get_key() methods return. */
  datatype Record = Record(fields: map<string, Scalar>, toString: Option<string>, getKey: Option<Scalar>)

  /** What queryToArray returns: the option list, or its input unchanged when
      no record gave an option. */
  datatype QueryResult = Options(options: PhpArray<string>) | Unchanged(query: seq<Record>)

  /** isset($model->$name). */
  predicate IsSet(r: Record, name: string) {
    name in r.fields && !r.fields[name].Null?
  }

  /** The value of a record: the value field when it is named and set, else
      the record's string form, else null. */
  function RecordValue(r: Record, valueField: string): Scalar {
    if TruthyString(valueField) && IsSet(r, valueField) then r.fields[valueField]
    else if r.toString.Some? then Text(r.toString.value)
    else Null
  }

  /** The key of a record: the key field when it is named and set, else
      get_key(), else the id attribute, else the record's value. */
  function RecordKey(r: Record, valueField: string, keyField: string): Scalar {
    if TruthyString(keyField) && IsSet(r, keyField) then r.fields[keyField]
    else if r.getKey.Some? then r.getKey.value
    else if IsSet(r, "id") then r.fields["id"]
    else RecordValue(r, valueField)
  }

  /** The option a record contributes: its key and its value as a string, or
      nothing when its value is falsy. */
  function OptionOf(r: Record, valueField: string, keyField: string): Option<(Key, string)> {
    var value := RecordValue(r, valueField);
    if Truthy(value) then Some((AsKey(RecordKey(r, valueField, keyField)), AsString(value))) else None
  }

  /** The option list after one more record: its option assigned, if it has one. */
  function AddOption(options: PhpArray<string>, r: Record, valueField: string, keyField: string): PhpArray<string> {
    match OptionOf(r, valueField, keyField)
    case None => options
    case Some((k, v)) => Assign(options, k, v)
  }

  /** The option list the records make, each option assigned in turn. */
  function CollectOptions(query: seq<Record>, valueField: string, keyField: string): PhpArray<string>
    decreases |query|
  {
    if query == [] then []
    else AddOption(CollectOptions(query[..|query| - 1], valueField, keyField), query[|query| - 1], valueField, keyField)
  }

  /** What queryToArray returns for the records of a query. */
  function QueryResultOf(query: seq<Record>, valueField: string, keyField: string): QueryResult {
    var options := CollectOptions(query, valueField, keyField);
    if options == [] then Unchanged(query) else Options(options)
  }

  /** queryToArray($query, $value, $key) for a query already materialised as
      a sequence of records. */
  method QueryToArray(query: seq<Record>, valueField: string, keyField: string) returns (result: QueryResult)
    ensures result == QueryResultOf(query, valueField, keyField)
    ensures result.Unchanged? <==> forall i :: 0 <= i < |query| ==> !Truthy(RecordValue(query[i], valueField))
    ensures result.Unchanged? ==> result.query == query
  {
    var collected: Option<PhpArray<string>> := None;
    for i := 0 to |query|
      invariant collected.None? ==> CollectOptions(query[..i], valueField, keyField) == []
      invariant collected.Some? ==> collected.value == CollectOptions(query[..i], valueField, keyField) != []
    {
      assert query[..i + 1][..i] == query[..i];
      var model := query[i];

      var modelValue: Scalar;
      if TruthyString(valueField) && IsSet(model, valueField) {
        modelValue := model.fields[valueField];
      } else if model.toString.Some? {
        modelValue := Text(model.toString.value);
      } else {
        modelValue := Null;
      }

      var modelKey: Scalar;
      if TruthyString(keyField) && IsSet(model, keyField) {
        modelKey := model.fields[keyField];
      } else if model.getKey.Some? {
        modelKey := model.getKey.value;
      } else if IsSet(model, "id") {
        modelKey := model.fields["id"];
      } else {
        modelKey := modelValue;
      }

      if !Truthy(modelValue) {
        continue;
      }
      collected := Some(Assign(collected.GetOr([]), AsKey(modelKey), AsString(modelValue)));
    }
    assert query[..|query|] == query;
    NoOptionsIffAllFalsy(query, valueField, keyField);
    result := if collected.Some? then Options(collected.value) else Unchanged(query);
  }

  /** No option is produced exactly when every record's value is falsy. */
  lemma {:induction false} NoOptionsIffAllFalsy(query: seq<Record>, valueField: string, keyField: string)
    ensures CollectOptions(query, valueField, keyField) == [] <==>
              forall i :: 0 <= i < |query| ==> !Truthy(RecordValue(query[i], valueField))
    decreases |query|
  {
    if query != [] {
      var init := query[..|query| - 1];
      NoOptionsIffAllFalsy(init, valueField, keyField);
      assert forall i :: 0 <= i < |init| ==> init[i] == query[i];
    }
  }

  /** Every option value is a truthy string, and no key occurs twice. */
  lemma {:induction false} OptionsWellFormed(query: seq<Record>, valueField: string, keyField: string)
    ensures UniqueKeys(CollectOptions(query, valueField, keyField))
    ensures forall e :: e in CollectOptions(query, valueField, keyField) ==> TruthyString(e.1)
    decreases |query|
  {
    if query != [] {
      var init := query[..|query| - 1];
      var r := query[|query| - 1];
      OptionsWellFormed(init, valueField, keyField);
      var options := CollectOptions(init, valueField, keyField);
      if OptionOf(r, valueField, keyField).Some? {
        var (k, v) := OptionOf(r, valueField, keyField).value;
        TruthyAsString(RecordValue(r, valueField));
        AssignKeepsKeysUnique(options, k, v);
        AssignEntries(options, k, v);
      }
    }
  }

  /** The record i gives key k, and no later record does. */
  predicate LastToGiveKey(query: seq<Record>, valueField: string, keyField: string, i: int, k: Key) {
    && 0 <= i < |query|
    && OptionOf(query[i], valueField, keyField).Some?
    && OptionOf(query[i], valueField, keyField).value.0 == k
    && forall j :: i < j < |query| ==> !GivesKey(query[j], valueField, keyField, k)
  }

  predicate GivesKey(r: Record, valueField: string, keyField: string, k: Key) {
    OptionOf(r, valueField, keyField).Some? && OptionOf(r, valueField, keyField).value.0 == k
  }

  /** A record that does not give key k leaves the option of key k as it was. */
  lemma AddOptionOtherKey(options: PhpArray<string>, r: Record, valueField: string, keyField: string, k: Key)
    requires !GivesKey(r, valueField, keyField, k)
    ensures Lookup(AddOption(options, r, valueField, keyField), k) == Lookup(options, k)
  {
  }

  /** The option of key k holds the value of the last record that gives key
      k: a later record overwrites an earlier one with the same key. */
  lemma {:induction false} LastRecordWins(query: seq<Record>, valueField: string, keyField: string, i: int, k: Key)
    requires LastToGiveKey(query, valueField, keyField, i, k)
    ensures Lookup(CollectOptions(query, valueField, keyField), k) == Some(OptionOf(query[i], valueField, keyField).value.1)
    decreases |query|
  {
    var n := |query| - 1;
    var init, last := query[..n], query[n];
    assert CollectOptions(query, valueField, keyField) ==
             AddOption(CollectOptions(init, valueField, keyField), last, valueField, keyField);
    if i < n {
      assert !GivesKey(last, valueField, keyField, k);
      AddOptionOtherKey(CollectOptions(init, valueField, keyField), last, valueField, keyField, k);
      assert forall j :: i < j < |init| ==> init[j] == query[j];
      LastRecordWins(init, valueField, keyField, i, k);
    }
  }

  /** Every option comes from a record: the last one that gives its key. */
  lemma {:induction false} OptionFromLastRecord(query: seq<Record>, valueField: string, keyField: string, k: Key)
    requires Lookup(CollectOptions(query, valueField, keyField), k).Some?
    ensures exists i :: LastToGiveKey(query, valueField, keyField, i, k)
                        && OptionOf(query[i], valueField, keyField).value.1 ==
                             Lookup(CollectOptions(query, valueField, keyField), k).value
    decreases |query|
  {
    var n := |query| - 1;
    var init, last := query[..n], query[n];
    var previous := CollectOptions(init, valueField, keyField);
    assert CollectOptions(query, valueField, keyField) == AddOption(previous, last, valueField, keyField);
    if GivesKey(last, valueField, keyField, k) {
      assert LastToGiveKey(query, valueField, keyField, n, k);
    } else {
      AddOptionOtherKey(previous, last, valueField, keyField, k);
      OptionFromLastRecord(init, valueField, keyField, k);
      var i :| LastToGiveKey(init, valueField, keyField, i, k)
               && OptionOf(init[i], valueField, keyField).value.1 == Lookup(previous, k).value;
      forall j | i < j < |query| ensures !GivesKey(query[j], valueField, keyField, k) {
        if j < n {
          assert query[j] == init[j];
        }
      }
      assert LastToGiveKey(query, valueField, keyField, i, k);
    }
  }

  /** A record whose value is falsy can be removed without changing the option list. */
  lemma {:induction false} FalsyRecordIgnored(before: seq<Record>, r: Record, after: seq<Record>, valueField: string, keyField: string)
    requires !Truthy(RecordValue(r, valueField))
    ensures CollectOptions(before + [r] + after, valueField, keyField) == CollectOptions(before + after, valueField, keyField)
    decreases |after|
  {
    var whole, shorter := before + [r] + after, before + after;
    if after == [] {
      assert whole[..|whole| - 1] == before && whole[|whole| - 1] == r;
      assert CollectOptions(whole, valueField, keyField) ==
               AddOption(CollectOptions(before, valueField, keyField), r, valueField, keyField);
      assert shorter == before;
    } else {
      var after' := after[..|after| - 1];
      var last := after[|after| - 1];
      assert whole[..|whole| - 1] == before + [r] + after' && whole[|whole| - 1] == last;
      assert shorter[..|shorter| - 1] == before + after' && shorter[|shorter| - 1] == last;
      FalsyRecordIgnored(before, r, after', valueField, keyField);
      assert CollectOptions(whole, valueField, keyField) ==
               AddOption(CollectOptions(before + [r] + after', valueField, keyField), last, valueField, keyField);
      assert CollectOptions(shorter, valueField, keyField) ==
               AddOption(CollectOptions(before + after', valueField, keyField), last, valueField, keyField);
    }
  }

  // ==================================================================
  // Former helpers

  /** The classes getClassFromMethod's table can name. */
  const FIELD_CLASSES: set<string> := {"Button", "Select", "Checkbox", "Radio", "File", "Input"}

  /** The field methods the table maps to a class other than Input. */
  const ALIASED_METHODS: set<string> := {"submit", "reset", "multiselect", "checkboxes", "radios", "files"}

  /** getClassFromMethod($method), with class_exists over the field namespace
      passed in as `classExists`. */
  function GetClassFromMethod(fieldMethod: string, classExists: string -> bool): (r: string)
    ensures classExists(UcFirst(fieldMethod)) ==> r == UcFirst(fieldMethod)
    ensures !classExists(UcFirst(fieldMethod)) ==> r in FIELD_CLASSES
    ensures !classExists(UcFirst(fieldMethod)) ==> (r == "Button" <==> fieldMethod == "submit" || fieldMethod == "reset")
    ensures !classExists(UcFirst(fieldMethod)) ==> (r == "Select" <==> fieldMethod == "multiselect")
    ensures !classExists(UcFirst(fieldMethod)) ==> (r == "Checkbox" <==> fieldMethod == "checkboxes")
    ensures !classExists(UcFirst(fieldMethod)) ==> (r == "Radio" <==> fieldMethod == "radios")
    ensures !classExists(UcFirst(fieldMethod)) ==> (r == "File" <==> fieldMethod == "files")
    ensures !classExists(UcFirst(fieldMethod)) ==> (r == "Input" <==> fieldMethod !in ALIASED_METHODS)
  {
    if classExists(UcFirst(fieldMethod)) then UcFirst(fieldMethod)
    else match fieldMethod
      case "submit" => "Button"
      case "reset" => "Button"
      case "multiselect" => "Select"
      case "checkboxes" => "Checkbox"
      case "radios" => "Radio"
      case "files" => "File"
      case _ => "Input"
  }

  /** When the table's classes all exist, getClassFromMethod names an existing class. */
  lemma ClassFromMethodExists(fieldMethod: string, classExists: string -> bool)
    requires forall c :: c in FIELD_CLASSES ==> classExists(c)
    ensures classExists(GetClassFromMethod(fieldMethod, classExists))
  {
  }
}
