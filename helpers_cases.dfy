/** Concrete cases of the helpers' behaviour. */
module HelpersCases {
  import opened Wrappers
  import opened PhpStrings
  import opened PhpArrays
  import opened Helpers

  /** addClass on an empty array sets class to the class itself, once. */
  lemma AddClassToEmpty()
    ensures ClassAdded([], "foo") == [(CLASS_KEY, Some("foo"))]
    ensures ClassAdded(ClassAdded([], "foo"), "foo") == [(CLASS_KEY, Some("foo"))]
  {
    AddClassContainsWord([], "foo");
    AddClassIdempotent([], "foo");
  }

  /** addClass appends to an existing class with one space. */
  lemma AddClassToExisting()
    ensures ClassAdded([(CLASS_KEY, Some("btn"))], "large") == [(CLASS_KEY, Some("btn large"))]
  {
    var a: AttributeArray := [(CLASS_KEY, Some("btn"))];
    assert ClassText(a) == "btn";
    LargeNotInBtn();
    BtnLargeTrimmed();
  }

  lemma LargeNotInBtn()
    ensures !Contains("btn", "large")
  {
  }

  lemma BtnLargeTrimmed()
    ensures Trim("btn" + " " + "large") == "btn large"
  {
    TrimJoinedWords("btn", "large");
  }

  /** attributes() drops a null entry and writes a numeric key as its value. */
  lemma AttributesDropNull(escape: string -> string)
    ensures AttributeString([(Str("required"), None), (Num(0), Some("disabled"))], escape) ==
              Some(" disabled=\"" + escape("disabled") + "\"")
  {
    var a: AttributeArray := [(Str("required"), None)];
    var b: AttributeArray := [(Num(0), Some("disabled"))];
    assert a + b == [(Str("required"), None), (Num(0), Some("disabled"))];
    AttributesConcat(a, b, escape);
    AttributesOfNull(Str("required"), escape);
    AttributesOfOne(Num(0), "disabled", escape);
    assert AttributeString(a, escape) == None;
    assert AttributeString(b, escape) == Some(" " + AttributePair(Num(0), "disabled", escape));
    var e := escape("disabled");
    assert AttributePair(Num(0), "disabled", escape) == "disabled" + "=\"" + e + "\"";
    assert " " + ("disabled" + "=\"" + e + "\"") == " disabled=\"" + e + "\"";
    assert AttributeString(a + b, escape) == Some(" disabled=\"" + e + "\"");
  }

  /** is_numeric accepts a hexadecimal string without a sign. */
  lemma HexNumericCase()
    ensures IsNumericString("0x1A")
  {
    HexIsNumeric("0x1A");
  }

  /** is_numeric rejects a hexadecimal string with a sign. */
  lemma SignedHexCase()
    ensures !IsNumericString("-0x1A")
  {
    assert SpaceRun("-0x1A") == 0;
    assert "-0x1A"[0..] == "-0x1A" && "-0x1A"[1..] == "0x1A";
    assert DigitRun("0x1A") == 1 by {
      assert DigitRun("x1A") == 0;
    }
    assert "0x1A"[1..] == "x1A";
  }

  /** is_numeric rejects "0x" without digits. */
  lemma BareHexCase()
    ensures !IsNumericString("0x")
  {
    NumericFromDigit("0x");
    assert DigitRun("0x") == 1 by {
      assert DigitRun("x") == 0;
    }
    assert "0x"[1..] == "x";
  }

  /** is_numeric accepts a signed fraction without an integer part. */
  lemma SignedFractionCase()
    ensures IsNumericString("-.5")
  {
    assert SpaceRun("-.5") == 0;
    assert "-.5"[1..] == ".5" && ".5"[1..] == "5";
    assert DigitRun(".5") == 0 && DigitRun("5") == 1;
  }

  /** is_numeric rejects trailing white space, a lone point and "". */
  lemma NonNumericCases()
    ensures !IsNumericString("1 ") && !IsNumericString(".") && !IsNumericString("")
  {
    assert SpaceRun("1 ") == 0 && DigitRun("1 ") == 1 by {
      assert DigitRun(" ") == 0;
    }
    assert "1 "[1..] == " ";
    assert SpaceRun(".") == 0 && DigitRun(".") == 0;
    assert "."[1..] == [];
  }

  /** A hexadecimal string key is numeric, so attributes() writes the value as
      the name. */
  lemma AttributesHexKey(escape: string -> string)
    ensures AttributeString([(Str("0x1A"), Some("v"))], escape) == Some(" v=\"" + escape("v") + "\"")
  {
    HexIsNumeric("0x1A");
    assert IsNumericKey(Str("0x1A"));
    AttributesOfOne(Str("0x1A"), "v", escape);
    var e := escape("v");
    assert AttributePair(Str("0x1A"), "v", escape) == "v" + "=\"" + e + "\"";
    assert " " + ("v" + "=\"" + e + "\"") == " v=\"" + e + "\"";
  }

  /** attributes() of an empty array is false, not "". */
  lemma AttributesOfEmpty(escape: string -> string)
    ensures AttributeString([], escape) == None
  {
  }

  /** translate() of an empty key is null; a key found nowhere falls back. */
  lemma TranslateCases(catalog: map<string, Entry>)
    requires "missing.key" !in catalog && "validation.missing.key" !in catalog
    ensures Translate("", Some("Anything"), catalog, "validation") == None
    ensures Translate("missing.key", Some("fallback"), catalog, "validation") == Some("Fallback")
  {
    assert NamespacedKey("validation", "missing.key") == "validation.missing.key";
    assert ToUpperAscii('f') == 'F';
    assert UcFirst("fallback") == "Fallback";
  }

  /** A record with id 1 and name "A" gives the option 1 => "A"; an empty name gives none. */
  lemma QueryCases()
    ensures QueryResultOf([Record(map["id" := Int(1), "name" := Text("A")], None, None)], "name", "id") ==
              Options([(Num(1), "A")])
    ensures QueryResultOf([Record(map["id" := Int(1), "name" := Text("")], None, None)], "name", "id") ==
              Unchanged([Record(map["id" := Int(1), "name" := Text("")], None, None)])
    ensures QueryResultOf([], "name", "id") == Unchanged([])
  {
    var rs := [Record(map["id" := Int(1), "name" := Text("A")], None, None)];
    assert rs[..0] == [];
    assert IntToString(1) == "1";
    var qs := [Record(map["id" := Int(1), "name" := Text("")], None, None)];
    assert qs[..0] == [];
  }

  /** The table of getClassFromMethod when no class of the field's own name exists. */
  lemma ClassCases(classExists: string -> bool)
    requires !classExists("Submit") && !classExists("Multiselect") && !classExists("Unknown")
    ensures GetClassFromMethod("submit", classExists) == "Button"
    ensures GetClassFromMethod("multiselect", classExists) == "Select"
    ensures GetClassFromMethod("unknown", classExists) == "Input"
  {
    assert UcFirst("submit") == "Submit" by {
      assert ToUpperAscii('s') == 'S';
    }
    assert UcFirst("multiselect") == "Multiselect" by {
      assert ToUpperAscii('m') == 'M';
    }
    assert UcFirst("unknown") == "Unknown" by {
      assert ToUpperAscii('u') == 'U';
    }
  }
}
