/**
 * PHP's ordered arrays as the helpers use them: a sequence of key/value
 * entries in insertion order, where assigning to an existing key replaces its
 * value in place and assigning to a new key appends an entry.
 */
module PhpArrays {
  import opened Wrappers
  import opened PhpStrings

  /** A key of a PHP array: a 64-bit integer or a string. */
  datatype Key = Num(n: Int64) | Str(s: string)

  /** An ordered PHP array: its entries in iteration order. */
  type PhpArray<V> = seq<(Key, V)>

  /** The keys of an array, in iteration order. */
  function KeysOf<V>(a: PhpArray<V>): (ks: seq<Key>)
    ensures |ks| == |a|
    decreases |a|
  {
    if a == [] then [] else [a[0].0] + KeysOf(a[1..])
  }

  /** The i-th key is the key of the i-th entry. */
  lemma {:induction false} KeysOfAt<V>(a: PhpArray<V>, i: int)
    requires 0 <= i < |a|
    ensures KeysOf(a)[i] == a[i].0
    decreases |a|
  {
    if i > 0 {
      KeysOfAt(a[1..], i - 1);
    }
  }

  /** No key occurs twice: the shape every PHP array has. */
  predicate UniqueKeys<V>(a: PhpArray<V>) {
    forall i, j :: 0 <= i < j < |a| ==> a[i].0 != a[j].0
  }

  /** $a[$k] when isset-like existence is asked: the value of the first entry with key k. */
  function Lookup<V>(a: PhpArray<V>, k: Key): (r: Option<V>)
    ensures r.Some? <==> k in KeysOf(a)
    ensures r.Some? ==> (k, r.value) in a
    decreases |a|
  {
    if a == [] then None
    else if a[0].0 == k then Some(a[0].1)
    else Lookup(a[1..], k)
  }

  /** $a[$k] = $v: replaces the value of key k where it stands, or appends (k, v). */
  function Assign<V>(a: PhpArray<V>, k: Key, v: V): (r: PhpArray<V>)
    ensures Lookup(r, k) == Some(v)
    ensures forall k' :: k' != k ==> Lookup(r, k') == Lookup(a, k')
    decreases |a|
  {
    if a == [] then [(k, v)]
    else if a[0].0 == k then [(k, v)] + a[1..]
    else [a[0]] + Assign(a[1..], k, v)
  }

  /** Assignment keeps the order of the keys, and appends a key that is new. */
  lemma {:induction false} AssignKeys<V>(a: PhpArray<V>, k: Key, v: V)
    ensures KeysOf(Assign(a, k, v)) == if k in KeysOf(a) then KeysOf(a) else KeysOf(a) + [k]
    decreases |a|
  {
    if a != [] && a[0].0 != k {
      var r := Assign(a, k, v);
      AssignKeys(a[1..], k, v);
      assert r[1..] == Assign(a[1..], k, v);
    }
  }

  /** Assignment brings in no entry but the assigned one. */
  lemma {:induction false} AssignEntries<V>(a: PhpArray<V>, k: Key, v: V)
    ensures forall e :: e in Assign(a, k, v) ==> e == (k, v) || e in a
    decreases |a|
  {
    if a != [] && a[0].0 != k {
      AssignEntries(a[1..], k, v);
    }
  }

  /** Every PHP array has unique keys, and assignment keeps it so. */
  lemma AssignKeepsKeysUnique<V>(a: PhpArray<V>, k: Key, v: V)
    requires UniqueKeys(a)
    ensures UniqueKeys(Assign(a, k, v))
  {
    var r := Assign(a, k, v);
    AssignKeys(a, k, v);
    var ks, ks' := KeysOf(a), KeysOf(r);
    forall i, j | 0 <= i < j < |r| ensures r[i].0 != r[j].0 {
      KeysOfAt(r, i);
      KeysOfAt(r, j);
      if j < |a| {
        KeysOfAt(a, i);
        KeysOfAt(a, j);
      } else {
        KeysOfAt(a, i);
        assert k !in ks && ks'[j] == k && ks'[i] == ks[i];
      }
    }
  }

  /** Assigning a key the value it already has changes nothing. */
  lemma {:induction false} AssignSame<V>(a: PhpArray<V>, k: Key, v: V)
    requires Lookup(a, k) == Some(v)
    ensures Assign(a, k, v) == a
    decreases |a|
  {
    if a[0].0 != k {
      AssignSame(a[1..], k, v);
    }
  }

  /** Of two assignments to one key, only the later is seen. */
  lemma {:induction false} AssignTwice<V>(a: PhpArray<V>, k: Key, u: V, v: V)
    ensures Assign(Assign(a, k, u), k, v) == Assign(a, k, v)
    decreases |a|
  {
    if a != [] && a[0].0 != k {
      AssignTwice(a[1..], k, u, v);
    }
  }

  /** The key a string becomes when it is used as an array key: a canonical
      decimal integer in the 64-bit range (no leading zero, no "+", no "-0")
      becomes an integer key, anything else stays a string key. */
  function StringKey(s: string): Key {
    if s != [] && AllDigits(s) && (s[0] != '0' || |s| == 1)
       && DigitsValue(s) <= 0x7FFF_FFFF_FFFF_FFFF
    then Num(DigitsValue(s))
    else if |s| >= 2 && s[0] == '-' && s[1] != '0' && AllDigits(s[1..])
       && DigitsValue(s[1..]) <= 0x8000_0000_0000_0000
    then Num(-(DigitsValue(s[1..]) as int))
    else Str(s)
  }

  /** The decimal string of an integer is the same key as the integer itself. */
  lemma IntegerStringKey(i: Int64)
    ensures StringKey(IntToString(i)) == Num(i)
  {
    var s := IntToString(i);
    if i < 0 {
      var digits := NatToString(-(i as int));
      assert s == "-" + digits && s[1..] == digits;
      NatToStringRoundTrip(-(i as int));
      assert !IsDigit(s[0]);
      assert s[1] == digits[0] != '0';
    } else {
      NatToStringRoundTrip(i);
      assert s[0] != '0' || s == "0";
    }
  }

  /** Conversely, a string that becomes an integer key is exactly the decimal
      string of that integer. */
  lemma NumericStringKey(s: string)
    requires StringKey(s).Num?
    ensures IntToString(StringKey(s).n) == s
  {
    if s != [] && AllDigits(s) && (s[0] != '0' || |s| == 1) && DigitsValue(s) <= 0x7FFF_FFFF_FFFF_FFFF {
      assert StringKey(s).n == DigitsValue(s);
      CanonicalDigitsRoundTrip(s);
    } else {
      assert StringKey(s).n == -(DigitsValue(s[1..]) as int);
      NegativeDigitsRoundTrip(s);
    }
  }

  /** "-" followed by digits without a leading zero is the decimal string of
      the negated number. */
  lemma NegativeDigitsRoundTrip(s: string)
    requires |s| >= 2 && s[0] == '-' && s[1] != '0' && AllDigits(s[1..])
    ensures IntToString(-(DigitsValue(s[1..]) as int)) == s
  {
    var digits := s[1..];
    assert digits[0] == s[1];
    LeadingDigitPositive(digits);
    CanonicalDigitsRoundTrip(digits);
    assert s == "-" + digits;
  }
}
