# Former's helpers, modelled in Dafny

Former is a PHP form builder. Its field classes share a small set of helpers
(`src/Former/Helpers.php`):

- `addClass` adds a CSS class to an attribute array, at most once;
- `attributes` renders an attribute array as the text of an HTML tag;
- `translate` looks a label up in the translator, first under its own key,
  then under the configured `former::translate_from` namespace, and falls
  back to a default; the result gets its first letter upper-cased;
- `queryToArray` turns the records of a query into an option list, key to
  label;
- `getClassFromMethod` chooses the class that renders a field, from its
  name or from a table of aliases.

The project models these five operations together with the PHP built-ins
they rely on, with the semantics of PHP 5. `Helpers.php` is written for PHP
5: its `use \Underscore\String;` (line 9) does not compile from PHP 7.0 on,
where `String` is a reserved class name.

- `wrappers.dfy` holds the `Option` type.
- `php_strings.dfy` (module `PhpStrings`) covers `trim`, `strpos` used as a
  containment test, `ucfirst`, string truthiness, `is_numeric` on strings,
  `implode`, and the decimal form of 64-bit integers.
- `php_arrays.dfy` (module `PhpArrays`) covers ordered PHP arrays. An array
  is a sequence of key/value entries. Assigning to a key replaces its value
  where it stands, or else appends the entry. A string key that spells a
  canonical integer becomes an integer key.
- `helpers.dfy` (module `Helpers`) holds the helpers themselves:
  - `addClass`, `attributes` and `queryToArray` update local variables in
    loops and branches. They are methods, each proved equal to a
    specification function (`ClassAdded`, `AttributeString`,
    `QueryResultOf`). The properties the helpers promise are proved as
    lemmas about those functions.
  - `translate` and `getClassFromMethod` have no loop and update nothing.
    They are functions whose contracts give their whole decision table.
- `helpers_cases.dfy` (module `HelpersCases`) states concrete cases of the
  helpers' behaviour.

The translator and the configuration come from the application container
(lines 113-117); `entities` is a method of the class (lines 48-51, called at
line 81), and `class_exists` is a PHP built-in (line 194). All four become
parameters here:

- the entity escaper `entities` is `escape: string -> string`;
- the translator is its catalog, `map<string, Entry>`;
- the `former::translate_from` setting is the string `namespace`;
- `class_exists` over `Former::FIELDSPACE` is `classExists: string -> bool`.

`entities` calls `htmlentities` with `double_encode = false`
(`src/Former/Helpers.php:50`), so `decode(entities("&amp;"))` is `"&"`, not
`"&amp;"`. `attributes` is therefore proved for every escaper, and no round
trip between `entities` and `decode` is claimed.

## Model

| member | source | states |
|---|---|---|
| Helpers.AddClass | src/Former/Helpers.php:30-40 | The result sets the class attribute. When the current class text (empty if unset or null) already contains the class, the input array comes back unchanged. Otherwise the class becomes trim(current . " " . class). Every other key keeps its value, and the keys keep their order, with "class" appended when it was absent. |
| Helpers.ClassAdded | src/Former/Helpers.php:30-40 | The array addClass returns: "class" assigned its current text when that contains the class, and trim(current . " " . class) otherwise. It is the specification Helpers.AddClass is proved against, and it has no contract of its own. |
| Helpers.ClassUnset | src/Former/Helpers.php:32 | !isset($attributes['class']): the class attribute is absent or null. |
| Helpers.ClassText | src/Former/Helpers.php:32-36 | The class text addClass reads: "" when the class attribute is absent or null, its value otherwise. |
| Helpers.ClassAddedFrame | src/Former/Helpers.php:32-37 | addClass changes only the "class" entry. Every other key looks up as before, and the key order is kept, with "class" appended at the end when it was new. |
| Helpers.AddClassKeepsContained | src/Former/Helpers.php:34-35 | When the class attribute already contains the class, the array is returned untouched; an unset class is not even written as null. |
| Helpers.JoinedClassContainsWord | src/Former/Helpers.php:36 | The trimmed concatenation contains the added word. It is the word alone when the old class text was empty. |
| Helpers.AddClassContainsWord | src/Former/Helpers.php:32-37 | After a class w with no surrounding white space is added, the class attribute contains w. When the class attribute was unset, it is exactly w. |
| Helpers.AddClassIdempotent | src/Former/Helpers.php:34-37 | Adding the same class twice gives the same result as adding it once ("Prevent adding a class twice"). |
| Helpers.Attributes | src/Former/Helpers.php:70-88 | The loop computes " " followed by, space-separated, name="escaped value" for each non-null entry in array order; a numeric key is replaced by the value. The result is false (None) exactly when every value is null. |
| Helpers.IsNumericKey | src/Former/Helpers.php:77 | is_numeric($key): true for every integer key, and for a string key exactly when PhpStrings.IsNumericString holds, hexadecimal keys such as "0x1A" included. |
| Helpers.AttributePair | src/Former/Helpers.php:77-81 | One rendered pair, name="escape(value)"; the name is the value when the key is numeric. |
| Helpers.RenderedPairs | src/Former/Helpers.php:74-83 | The list $html builds: the pairs of the non-null entries, in array order. |
| Helpers.AttributeString | src/Former/Helpers.php:70-88 | What attributes() returns: false (None) when no pair was rendered, otherwise " " followed by the pairs joined with single spaces. It is the specification Helpers.Attributes is proved against, and it has no contract of its own. |
| Helpers.NoPairsIffAllNull | src/Former/Helpers.php:80-86 | No pair is rendered if and only if every value of the array is null. |
| Helpers.RenderedPairsConcat | src/Former/Helpers.php:74-83 | The pairs rendered for a concatenation of arrays are the pairs of the first followed by those of the second. |
| Helpers.AttributesConcat | src/Former/Helpers.php:74-87 | attributes() of a concatenation is the two results joined, a false side contributing nothing. |
| Helpers.AttributesOfOne | src/Former/Helpers.php:77-81 | A single entry with a value renders as " " + name="escape(value)", the value standing in for a numeric key. |
| Helpers.AttributesOfNull | src/Former/Helpers.php:80-86 | A single null entry renders as false. |
| Helpers.Translate | src/Former/Helpers.php:101-126 | The result is null exactly when the key is falsy. A key found as a line gives ucfirst of that line. Otherwise a namespaced key found as a line gives ucfirst of that line. Otherwise (nothing found, or a group found) the result is ucfirst of the fallback, which is the key when the given fallback is falsy. |
| Helpers.FallbackFor | src/Former/Helpers.php:107 | The fallback after line 107: the given fallback when it is truthy, the key otherwise. |
| Helpers.NamespacedKey | src/Former/Helpers.php:116-117 | The second key tried: the configured namespace, a dot, then the key. |
| Helpers.TranslateDefaultFallback | src/Former/Helpers.php:107 | A missing, empty or "0" fallback behaves exactly as passing the key as fallback. |
| Helpers.TranslateCapitalised | src/Former/Helpers.php:125 | A translated label never starts with a lower-case ASCII letter. |
| Helpers.TranslateReadsTwoEntries | src/Former/Helpers.php:113-120 | translate() depends on the catalog only at the key and at namespace.key. |
| Helpers.Truthy | src/Former/Helpers.php:173 | PHP truthiness of a scalar: null, false, 0, "" and "0" are falsy, and everything else is truthy. |
| Helpers.AsString | src/Former/Helpers.php:175 | (string) of a scalar: null is "", false is "", true is "1", an integer is its decimal form, and a string is itself. |
| Helpers.AsKey | src/Former/Helpers.php:175 | The key a scalar becomes in $array[$modelKey]: null is "", booleans are 0 and 1, integers are themselves, and a string is normalised by PhpArrays.StringKey. |
| Helpers.IsSet | src/Former/Helpers.php:162-169 | isset($model->$name), used at lines 162, 167 and 169: the record has the attribute and it is not null. |
| Helpers.RecordValue | src/Former/Helpers.php:161-164 | $modelValue: the value field when it is named and set, else the record's __toString(), else null. |
| Helpers.RecordKey | src/Former/Helpers.php:166-170 | $modelKey: the key field when it is named and set, else get_key(), else the id attribute when set, else the value. |
| Helpers.OptionOf | src/Former/Helpers.php:172-175 | The option one record contributes: none when its value is falsy, else its key paired with its value cast to string. |
| Helpers.AddOption | src/Former/Helpers.php:173-175 | One loop step: the record's option assigned into the list, or the list unchanged when the record is skipped. |
| Helpers.CollectOptions | src/Former/Helpers.php:156-176 | The option list after every record, each option assigned in turn. |
| Helpers.QueryResultOf | src/Former/Helpers.php:156-178 | What queryToArray returns: the records unchanged when the option list is empty, and the option list otherwise. It is the specification Helpers.QueryToArray is proved against, and it has no contract of its own. |
| Helpers.TruthyAsString | src/Former/Helpers.php:173-175 | A truthy value cast to string is a truthy string. |
| Helpers.QueryToArray | src/Former/Helpers.php:140-179 | The loop computes the option list: for each record with a truthy value, in order, its key is assigned its value cast to string. When no record has a truthy value, the query comes back unchanged; that happens exactly then. |
| Helpers.NoOptionsIffAllFalsy | src/Former/Helpers.php:173-178 | The option list is empty if and only if every record's value is falsy. |
| Helpers.OptionsWellFormed | src/Former/Helpers.php:173-175 | Option keys are unique, and every option label is a truthy string. |
| Helpers.AddOptionOtherKey | src/Former/Helpers.php:175 | A record that does not give key k leaves the option under k as it was. |
| Helpers.LastRecordWins | src/Former/Helpers.php:167-175 | The option under key k is the value of the last record that gives key k. |
| Helpers.OptionFromLastRecord | src/Former/Helpers.php:156-176 | Every option comes from a record: the last record giving its key, and the option holds that record's value. |
| Helpers.FalsyRecordIgnored | src/Former/Helpers.php:173 | Removing a record whose value is falsy does not change the option list. |
| Helpers.GetClassFromMethod | src/Former/Helpers.php:191-222 | When a class named ucfirst(method) exists, that name is the result. Otherwise the table applies: submit and reset give Button, multiselect gives Select, checkboxes gives Checkbox, radios gives Radio, files gives File, and every other name gives Input. Each table entry holds in both directions. |
| Helpers.ClassFromMethodExists | src/Former/Helpers.php:194-221 | When the six table classes exist, the chosen class exists. |
| PhpStrings.TrimLeft | src/Former/Helpers.php:36 | ltrim's result is a suffix of its argument. What it cuts is trim characters only, and it starts with no trim character. |
| PhpStrings.TrimRight | src/Former/Helpers.php:36 | rtrim's result is a prefix of its argument. What it cuts is trim characters only, and it ends with no trim character. |
| PhpStrings.Trim | src/Former/Helpers.php:36 | trim's result neither starts nor ends with a trim character. |
| PhpStrings.TrimIsSlice | src/Former/Helpers.php:36 | trim's result is a slice of its argument, with only trim characters on either side of it. |
| PhpStrings.TrimLeftConcat | src/Former/Helpers.php:36 | ltrim of p . q, where q starts with a non-trim character, is ltrim(p) . q. |
| PhpStrings.TrimEndingInWord | src/Former/Helpers.php:36 | trim of p . w, for a word w, is ltrim(p) . w. |
| PhpStrings.TrimJoinedWords | src/Former/Helpers.php:36 | Two words joined by one space have nothing to trim. |
| PhpStrings.IsTrimChar | src/Former/Helpers.php:36 | The characters trim() strips by default: space, tab, newline, carriage return, NUL and vertical tab. |
| PhpStrings.TruthyString | src/Former/Helpers.php:104-107 | A string is falsy exactly when it is "" or "0", as !$key (line 104), !$fallback (line 107) and the string case of !$modelValue (line 173) test it. |
| PhpStrings.Contains | src/Former/Helpers.php:35 | String::contains as strpos: the needle is non-empty and occurs in the haystack. PhpStrings.OccursIff characterises it by positions. |
| PhpStrings.OccursFrom | src/Former/Helpers.php:35 | A needle found at some position counts as contained. |
| PhpStrings.OccursWitness | src/Former/Helpers.php:35 | A contained needle is found at some position. |
| PhpStrings.OccursIff | src/Former/Helpers.php:35 | The containment test holds if and only if the needle is the slice of the haystack at some index. |
| PhpStrings.ContainsSuffix | src/Former/Helpers.php:35 | A non-empty needle is contained in any string ending with it. |
| PhpStrings.NothingInEmpty | src/Former/Helpers.php:32-35 | Nothing is contained in the empty string, which is what an unset class reads as. |
| PhpStrings.ToUpperAscii | src/Former/Helpers.php:125 | Upper-casing maps a-z down by 32, leaves every other character alone, and never yields a lower-case letter. |
| PhpStrings.UcFirst | src/Former/Helpers.php:125 | ucfirst keeps the length and every character after the first, and upper-cases the first. |
| PhpStrings.DigitRun | src/Former/Helpers.php:77 | The scanned prefix is the maximal run of leading digits. |
| PhpStrings.SpaceRun | src/Former/Helpers.php:77 | The scanned prefix is the maximal run of the white space that is_numeric skips. |
| PhpStrings.IsNumericString | src/Former/Helpers.php:77 | PHP 5 is_numeric on a string: leading white space, then either "0x" or "0X" and one or more hexadecimal digits with no sign, or an optional sign, digits with an optional point and at least one digit, and an optional exponent; nothing after. |
| PhpStrings.HexIsNumeric | src/Former/Helpers.php:77 | Every hexadecimal numeral ("0x1A") is numeric, so line 77 replaces such a key by its value. |
| PhpStrings.NumericFromDigit | src/Former/Helpers.php:77 | A string that starts with a digit is numeric exactly when it is a hexadecimal numeral or an unsigned decimal numeral. |
| PhpStrings.Implode | src/Former/Helpers.php:87 | implode(' ', $html): the pieces in order with one separator between neighbours, "" for no pieces. |
| PhpStrings.ImplodeConcat | src/Former/Helpers.php:87 | Imploding p + q, both non-empty, is implode(p), the separator, then implode(q). |
| PhpStrings.NatToString | src/Former/Helpers.php:175 | The decimal form is non-empty and all digits, and starts with '0' only for zero, which is "0". |
| PhpStrings.NatToStringRoundTrip | src/Former/Helpers.php:175 | Reading the decimal form back gives the number. |
| PhpStrings.LeadingDigitPositive | src/Former/Helpers.php:175 | A digit string that does not start with '0' spells a positive number. |
| PhpStrings.CanonicalDigitsRoundTrip | src/Former/Helpers.php:175 | A digit string without a leading zero (or "0" itself) is the decimal form of the number it spells. |
| PhpStrings.IntToString | src/Former/Helpers.php:175 | (string) of an integer: its decimal digits, with a leading "-" when it is negative. |
| PhpStrings.IntToStringTruthy | src/Former/Helpers.php:173-175 | A non-zero integer's string form is truthy. |
| PhpArrays.KeysOfAt | src/Former/Helpers.php:175 | The i-th key is the key of the i-th entry. |
| PhpArrays.Lookup | src/Former/Helpers.php:32 | A key is found exactly when it is among the array's keys, and what is found is one of its entries. |
| PhpArrays.Assign | src/Former/Helpers.php:36 | After $a[$k] = $v, k looks up as v and every other key looks up as before. |
| PhpArrays.AssignKeys | src/Former/Helpers.php:175 | Assignment keeps the key order, appending a new key at the end. |
| PhpArrays.AssignEntries | src/Former/Helpers.php:175 | Assignment brings in no entry other than the assigned one. |
| PhpArrays.AssignKeepsKeysUnique | src/Former/Helpers.php:175 | Assignment keeps keys unique. |
| PhpArrays.AssignSame | src/Former/Helpers.php:35-39 | Assigning a key the value it already has changes nothing. |
| PhpArrays.AssignTwice | src/Former/Helpers.php:32-36 | Of two assignments to the same key, only the later one is seen. |
| PhpArrays.IntegerStringKey | src/Former/Helpers.php:175 | The decimal string of a 64-bit integer is the same array key as the integer itself. |
| PhpArrays.StringKey | src/Former/Helpers.php:175 | The key a string becomes: a canonical decimal integer within 64 bits becomes an integer key, and anything else ("01", "-0", "+1", " 1", out of range) stays a string key. |
| PhpArrays.NumericStringKey | src/Former/Helpers.php:175 | A string that becomes an integer key is exactly that integer's decimal string; with PhpArrays.IntegerStringKey this makes the normalisation a bijection on canonical strings. |
| PhpArrays.NegativeDigitsRoundTrip | src/Former/Helpers.php:175 | "-" followed by digits without a leading zero is the decimal string of the negated number. |
| HelpersCases.AddClassToEmpty | src/Former/Helpers.php:32-36 | addClass([], "foo") is class => "foo", and adding "foo" again changes nothing. |
| HelpersCases.AddClassToExisting | src/Former/Helpers.php:35-36 | Adding "large" to class "btn" gives "btn large". |
| HelpersCases.AttributesDropNull | src/Former/Helpers.php:74-87 | A null entry is dropped, and the numeric key 0 with value "disabled" renders as disabled="…". |
| HelpersCases.HexNumericCase | src/Former/Helpers.php:77 | is_numeric("0x1A") holds. |
| HelpersCases.SignedHexCase | src/Former/Helpers.php:77 | is_numeric("-0x1A") does not hold: a hexadecimal numeral takes no sign. |
| HelpersCases.BareHexCase | src/Former/Helpers.php:77 | is_numeric("0x") does not hold. |
| HelpersCases.SignedFractionCase | src/Former/Helpers.php:77 | is_numeric("-.5") holds. |
| HelpersCases.NonNumericCases | src/Former/Helpers.php:77 | is_numeric rejects "1 " (trailing white space), "." and "". |
| HelpersCases.AttributesHexKey | src/Former/Helpers.php:74-87 | attributes(['0x1A' => 'v']) renders ' v="…"': the hexadecimal key is numeric, so the value is the name. |
| HelpersCases.AttributesOfEmpty | src/Former/Helpers.php:86 | An empty array renders as false, not as an empty string. |
| HelpersCases.TranslateCases | src/Former/Helpers.php:104-125 | An empty key gives null. A key absent under both names gives the capitalised fallback. |
| HelpersCases.QueryCases | src/Former/Helpers.php:156-178 | A record with id 1 and name "A" gives [1 => "A"]. A record with an empty name, and an empty query, give the query back. |
| HelpersCases.ClassCases | src/Former/Helpers.php:194-218 | When no class of the field's own name exists, submit gives Button, multiselect gives Select, and an unknown name gives Input. |

## Left out

- `entities` and `decode` (lines 48-62) are calls to PHP's `htmlentities` and `html_entity_decode`. They are not modelled: `attributes` takes the escaper as a parameter, and no round trip between the two is claimed.
- The `(array)` cast of a non-array argument to `attributes` and to `queryToArray` is not modelled; those inputs are arrays already.
- `queryToArray` unwraps Laravel `Lang` objects and Eloquent or Fluent queries by calling `get()` (lines 142-151). This is not modelled; the records come in as a sequence.
- Records are modelled as objects with attributes plus optional `__toString` and `get_key` results. Converting an associative array to an object is treated as the same thing. Floats, arrays and objects as field values or keys are not modelled.
- `Helpers.QueryToArray`: the result has two cases, an option list or the unchanged input, and the input is returned as the same sequence of records. PHP's identity of the original query object is not observable here.
- `translate`'s short-circuit for a `Translator` instance passed as the key (line 110) is not modelled: keys are strings.
- `Helpers.Translate`: the translator's `has()` is modelled as membership in the catalog. The container lookups of the config and the translator are replaced by the `catalog` and `namespace` parameters.
- A null value field, key field or namespace is modelled as the empty string, which PHP treats the same way in the truthiness checks and concatenations that use them.
- `getClassFromMethod` asks `class_exists` about `Former::FIELDSPACE . ucfirst($method)`. That reflection is the parameter `classExists`, applied to the class's short name.
- `PhpStrings.UcFirst`: upper-cases ASCII letters only, as `ucfirst` does in the default C locale; locale-dependent and multibyte case mapping are not modelled.
- `PhpStrings.Contains`: Underscore's `String::contains` is not part of this model. Its semantics are an assumption: it is taken to be PHP 5 `strpos($haystack, $needle) !== false`, which is case-sensitive, does no trimming, and never finds an empty needle. `PhpStrings.ContainsSuffix`, `Helpers.AddClassKeepsContained` and `Helpers.AddClassIdempotent` rest on that assumption.
- The built-ins follow PHP 5, the version `Helpers.php` compiles on. Later versions differ in `is_numeric`: PHP 7.0 dropped hexadecimal strings and PHP 8 accepts trailing white space. They also differ in `strpos`: PHP 8 finds an empty needle. Those later semantics are not modelled.
- `PhpStrings.Int64`: integers are 64-bit, which assumes a 64-bit build. PHP 5 on Windows, and 32-bit builds, have 32-bit integers, which change the integer-key range of `PhpArrays.StringKey` and the values `Helpers.Scalar` can hold; that case is not modelled.
- Non-string attribute values in `attributes` are not modelled; values are strings or null.
