/** The translation of C types and literals into ctypes expressions:
    `TYPES_MAP`, `map_ctypes`, `format_pointer`, `format_array`,
    `pythonize_value` and `parse_offset`. */
module CTypes {
  import opened Wrappers
  import opened Text
  import opened Names
  import opened Registry

  /** `TYPES_MAP`: the C types that have a ctypes name of their own. */
  const TYPES_MAP: map<string, string> := map[
    "void" := "None",
    "void*" := "c_void_p",
    "float" := "c_float",
    "uint8_t" := "c_uint8",
    "uint32_t" := "c_uint",
    "uint64_t" := "c_uint64",
    "int32_t" := "c_int",
    "size_t" := "c_size_t",
    "char" := "c_char",
    "char*" := "c_char_p"
  ]

  /** Every key of `TYPES_MAP` starts with a lower-case letter. */
  lemma TypesMapKeysLowerCase()
    ensures forall k :: k in TYPES_MAP ==> |k| > 0 && 'a' <= k[0] <= 'z'
  {
  }

  /** `map_ctypes` accepts either a string or a `<type>` element. */
  datatype TypeItem = TypeText(text: string) | TypeElement(node: TypeNode)

  /** The C type name `map_ctypes` looks up: the string itself, or the
      element's text followed by the first character of its tail, stripped
      of whitespace. An empty tail has no first character, hence the
      precondition. */
  function TypeName(item: TypeItem): (n: string)
    requires item.TypeElement? && item.node.tail.Some? ==> item.node.tail.value != ""
    ensures item.TypeText? ==> n == item.text
    ensures item.TypeElement? ==> |n| <= |item.node.text| + 1
    ensures item.TypeElement? && n != [] ==> !IsSpace(n[0]) && !IsSpace(n[|n| - 1])
  {
    match item
    case TypeText(s) => s
    case TypeElement(node) =>
      var tail := if node.tail.Some? then [node.tail.value[0]] else "";
      Strip(node.text + tail)
  }

  /** `map_ctypes`: a name of `TYPES_MAP` becomes its ctypes name, any other
      one loses its Vulkan prefix. */
  function MapCtypes(item: TypeItem): (r: string)
    requires item.TypeElement? && item.node.tail.Some? ==> item.node.tail.value != ""
    ensures TypeName(item) in TYPES_MAP ==> r == TYPES_MAP[TypeName(item)]
    ensures TypeName(item) !in TYPES_MAP ==> r == RemovePrefix(TypeName(item))
    ensures TypeName(item) in TYPES_MAP ==> r in TYPES_MAP.Values
    ensures TypeName(item) !in TYPES_MAP ==> |r| <= |TypeName(item)|
  {
    var name := TypeName(item);
    if name in TYPES_MAP then TYPES_MAP[name] else RemovePrefix(name)
  }

  /** A Vulkan type `Vk<t>` maps to `t`: the name the dependency lookup
      turns back into `Vk<t>`. */
  lemma MapCtypesVulkanType(t: string)
    ensures MapCtypes(TypeText("Vk" + t)) == t
  {
    TypesMapKeysLowerCase();
    assert ("Vk" + t)[0] == 'V';
    RemovePrefixVk(t);
  }

  /** A pointer `<type>` element (`void` followed by `*`) is looked up as
      `void*`, whitespace around the text being ignored. */
  lemma MapCtypesPointerElement(text: string, tail: string)
    requires tail != "" && Strip(text + tail[..1]) == "void*"
    ensures MapCtypes(TypeElement(TypeNode(text, Some(tail)))) == "c_void_p"
  {
    assert [tail[0]] == tail[..1];
  }

  /** `format_pointer`: `void` and `char` have ctypes pointer types of their
      own; any other type is wrapped in `POINTER(...)`. */
  function FormatPointer(t: string): (r: string)
    ensures |r| > 0
    ensures r == "c_void_p" <==> t == "None"
    ensures r == "c_char_p" <==> t == "c_char"
  {
    if t == "None" then TYPES_MAP["void*"]
    else if t == "c_char" then TYPES_MAP["char*"]
    else "POINTER(" + t + ")"
  }

  /** The type a ctypes pointer type points to: the inverse of
      `FormatPointer`. */
  function Pointee(r: string): string {
    if r == "c_void_p" then "None"
    else if r == "c_char_p" then "c_char"
    else if |r| >= 9 && r[..8] == "POINTER(" && r[|r| - 1] == ')' then r[8..|r| - 1]
    else r
  }

  /** No two types share a pointer type: `Pointee` recovers the pointed-to
      type from every result of `FormatPointer`. */
  lemma FormatPointerRoundTrip(t: string)
    ensures Pointee(FormatPointer(t)) == t
  {
    if t != "None" && t != "c_char" {
      var r := FormatPointer(t);
      assert r[..8] == "POINTER(";
      assert r[8..|r| - 1] == t;
      assert r != "c_void_p" && r != "c_char_p" by {
        assert r[0] == 'P';
      }
    }
  }

  /** The loop of `parse_structure_member`: `format_pointer` applied once per
      `*`. */
  function Pointers(t: string, n: nat): (r: string)
    ensures n > 0 ==> |r| > 0
    decreases n
  {
    if n == 0 then t else FormatPointer(Pointers(t, n - 1))
  }

  function Repeat(s: string, n: nat): string
    decreases n
  {
    if n == 0 then "" else s + Repeat(s, n - 1)
  }

  /** Apart from the special pointer types, an `n`-fold pointer is `n`
      nested `POINTER(...)`. */
  lemma {:induction false} PointersNested(t: string, n: nat)
    requires t != "None" && t != "c_char"
    ensures Pointers(t, n) == Repeat("POINTER(", n) + t + Repeat(")", n)
    decreases n
  {
    if n > 0 {
      PointersNested(t, n - 1);
      var inner := Pointers(t, n - 1);
      var opens, closes := Repeat("POINTER(", n - 1), Repeat(")", n - 1);
      assert inner == opens + t + closes;
      assert inner != "None" && inner != "c_char" by {
        if n - 1 > 0 {
          assert opens[0] == 'P';
          assert inner[0] == opens[0];
        }
      }
      assert Pointers(t, n) == "POINTER(" + inner + ")";
      RepeatSnoc(")", n - 1);
      assert "POINTER(" + (opens + t + closes) + ")" == ("POINTER(" + opens) + t + (closes + ")");
    }
  }

  /** The first pointer level can be taken before the others. */
  lemma {:induction false} PointersFirstLevel(t: string, n: nat)
    ensures Pointers(t, n + 1) == Pointers(FormatPointer(t), n)
    decreases n
  {
    if n > 0 {
      PointersFirstLevel(t, n - 1);
    }
  }

  /** A pointer to a `void` pointer: `void` is `c_void_p` at the first
      level, then nested `POINTER(...)`. */
  lemma PointersToVoid(n: nat)
    requires n > 0
    ensures Pointers("None", n) == Repeat("POINTER(", n - 1) + "c_void_p" + Repeat(")", n - 1)
  {
    PointersFirstLevel("None", n - 1);
    PointersNested("c_void_p", n - 1);
  }

  /** A pointer to a `char` pointer: `char` is `c_char_p` at the first
      level, then nested `POINTER(...)`. */
  lemma PointersToChar(n: nat)
    requires n > 0
    ensures Pointers("c_char", n) == Repeat("POINTER(", n - 1) + "c_char_p" + Repeat(")", n - 1)
  {
    PointersFirstLevel("c_char", n - 1);
    PointersNested("c_char_p", n - 1);
  }

  lemma {:induction false} RepeatSnoc(s: string, n: nat)
    ensures Repeat(s, n + 1) == Repeat(s, n) + s
    decreases n
  {
    if n > 0 {
      RepeatSnoc(s, n - 1);
    }
  }

  /** `format_array`: a ctypes array type of the given length. */
  function FormatArray(t: string, length: string): (r: string)
    ensures |r| == |t| + |length| + 3
    ensures r[0] == '(' && r[|r| - 1] == ')' && r[1 + |t|] == '*'
    ensures r[1..1 + |t|] == t && r[2 + |t|..|r| - 1] == length
  {
    "(" + t + "*" + length + ")"
  }

  /** `TYPES_SUFFIX`: the literal suffixes and the ctypes type each one
      stands for, in the order they are tried. */
  const TYPES_SUFFIX: seq<(string, string)> := [("U", "c_uint"), ("ULL", "c_uint64"), ("f", "c_float")]

  const PARENTHESES: set<char> := {'(', ')'}

  /** The first suffix of `TYPES_SUFFIX` from index `from` on that ends `v`,
      if any. */
  function SuffixFrom(v: string, from: nat): (k: Option<nat>)
    requires from <= |TYPES_SUFFIX|
    ensures k.Some? ==> from <= k.value < |TYPES_SUFFIX| && EndsWith(v, TYPES_SUFFIX[k.value].0)
    ensures k.Some? ==> forall j :: from <= j < k.value ==> !EndsWith(v, TYPES_SUFFIX[j].0)
    ensures k.None? ==> forall j :: from <= j < |TYPES_SUFFIX| ==> !EndsWith(v, TYPES_SUFFIX[j].0)
    decreases |TYPES_SUFFIX| - from
  {
    if from == |TYPES_SUFFIX| then None
    else if EndsWith(v, TYPES_SUFFIX[from].0) then Some(from)
    else SuffixFrom(v, from + 1)
  }

  /** What `pythonize_value` returns: the value without its surrounding
      parentheses and, when it ends with a literal suffix, that suffix
      replaced by a ctypes constructor call. */
  function PythonizedValue(value: string): string {
    Suffixed(StripSet(value, PARENTHESES))
  }

  /** An already stripped value with its literal suffix, if any, turned
      into a constructor call. */
  function Suffixed(v: string): string {
    match SuffixFrom(v, 0)
    case Some(k) => TYPES_SUFFIX[k].1 + "(" + v[..|v| - |TYPES_SUFFIX[k].0|] + ")"
    case None => v
  }

  /** `pythonize_value`, with its loop over the suffixes. */
  method PythonizeValue(value: string) returns (r: string)
    ensures r == PythonizedValue(value)
  {
    var v := StripSet(value, PARENTHESES);
    assert PythonizedValue(value) == Suffixed(v);
    var i := 0;
    while i < |TYPES_SUFFIX|
      invariant 0 <= i <= |TYPES_SUFFIX|
      invariant SuffixFrom(v, 0) == SuffixFrom(v, i)
    {
      var (suffix, ctype) := TYPES_SUFFIX[i];
      if EndsWith(v, suffix) {
        SuffixValue(v, i);
        return ctype + "(" + v[..|v| - |suffix|] + ")";
      }
      assert SuffixFrom(v, i) == SuffixFrom(v, i + 1);
      i := i + 1;
    }
    assert SuffixFrom(v, 0) == None;
    return v;
  }

  lemma SuffixValue(v: string, i: nat)
    requires i < |TYPES_SUFFIX| && SuffixFrom(v, 0) == SuffixFrom(v, i) && EndsWith(v, TYPES_SUFFIX[i].0)
    ensures |TYPES_SUFFIX[i].0| <= |v|
    ensures Suffixed(v) == TYPES_SUFFIX[i].1 + "(" + v[..|v| - |TYPES_SUFFIX[i].0|] + ")"
  {
    assert SuffixFrom(v, i) == Some(i);
  }

  /** The suffixes end in different characters, so at most one of them ends
      a value and the order `TYPES_SUFFIX` is tried in does not matter. */
  lemma SuffixesExclusive(v: string, i: nat, j: nat)
    requires i < |TYPES_SUFFIX| && j < |TYPES_SUFFIX|
    requires EndsWith(v, TYPES_SUFFIX[i].0) && EndsWith(v, TYPES_SUFFIX[j].0)
    ensures i == j
  {
    var a := TYPES_SUFFIX[i].0;
    var b := TYPES_SUFFIX[j].0;
    assert v[|v| - 1] == a[|a| - 1];
    assert v[|v| - 1] == b[|b| - 1];
  }

  /** Every literal suffix ends with a letter, so a value ending with a
      digit has none of them. */
  lemma NoSuffixAfterDigit(v: string)
    requires v != [] && IsDigit(v[|v| - 1])
    ensures forall k :: 0 <= k < |TYPES_SUFFIX| ==> !EndsWith(v, TYPES_SUFFIX[k].0)
  {
    forall k | 0 <= k < |TYPES_SUFFIX| ensures !EndsWith(v, TYPES_SUFFIX[k].0) {
      var sfx := TYPES_SUFFIX[k].0;
      assert sfx != [] && v[|v| - 1] != sfx[|sfx| - 1] by {
        assert k == 0 || k == 1 || k == 2;
      }
    }
  }

  /** Whichever suffix ends the unparenthesised value decides the result. */
  lemma PythonizedValueSuffix(value: string, k: nat)
    requires k < |TYPES_SUFFIX|
    requires EndsWith(StripSet(value, PARENTHESES), TYPES_SUFFIX[k].0)
    ensures var v := StripSet(value, PARENTHESES);
      PythonizedValue(value) == TYPES_SUFFIX[k].1 + "(" + v[..|v| - |TYPES_SUFFIX[k].0|] + ")"
  {
    SuffixDecides(StripSet(value, PARENTHESES), k);
  }

  /** The search finds the one suffix a value ends with. */
  lemma SuffixDecides(v: string, k: nat)
    requires k < |TYPES_SUFFIX| && EndsWith(v, TYPES_SUFFIX[k].0)
    ensures SuffixFrom(v, 0) == Some(k)
  {
    var f := SuffixFrom(v, 0);
    assert f.Some?;
    SuffixesExclusive(v, f.value, k);
  }

  /** A value with no literal suffix only loses its surrounding
      parentheses. */
  lemma PythonizedValuePlain(value: string)
    requires forall k :: 0 <= k < |TYPES_SUFFIX| ==> !EndsWith(StripSet(value, PARENTHESES), TYPES_SUFFIX[k].0)
    ensures PythonizedValue(value) == StripSet(value, PARENTHESES)
  {
  }

  /** One pair of surrounding parentheses is removed from a value that
      does not start or end with another one. */
  lemma StripParentheses(v: string)
    requires v != [] && v[0] !in PARENTHESES && v[|v| - 1] !in PARENTHESES
    ensures StripSet("(" + v + ")", PARENTHESES) == v
  {
    var w := "(" + v + ")";
    assert w[1..] == v + ")";
    assert TrimStart(w, PARENTHESES) == TrimStart(v + ")", PARENTHESES);
    assert TrimStart(v + ")", PARENTHESES) == v + ")";
    assert (v + ")")[..|v|] == v;
  }

  /** The enum values written for the parenthesised literals of `vk.xml`,
      such as `(~0U)` and `(~0ULL)`. */
  lemma PythonizedValueParenthesised(v: string, k: nat)
    requires k < |TYPES_SUFFIX| && v != [] && v[0] !in PARENTHESES
    ensures PythonizedValue("(" + v + TYPES_SUFFIX[k].0 + ")") == TYPES_SUFFIX[k].1 + "(" + v + ")"
  {
    var s := TYPES_SUFFIX[k].0;
    assert s != [] && s[|s| - 1] !in PARENTHESES by {
      assert k == 0 || k == 1 || k == 2;
    }
    var w := v + s;
    ParenthesisedLiteral(v, s, w);
    assert PythonizedValue("(" + v + s + ")") == Suffixed(w);
    SuffixDecides(w, k);
  }

  lemma ParenthesisedLiteral(v: string, s: string, w: string)
    requires v != [] && v[0] !in PARENTHESES && s != [] && s[|s| - 1] !in PARENTHESES && w == v + s
    ensures StripSet("(" + v + s + ")", PARENTHESES) == w
    ensures EndsWith(w, s) && w[..|w| - |s|] == v
  {
    assert w[0] == v[0];
    assert w[|w| - 1] == s[|s| - 1];
    StripParentheses(w);
    ConcatAssoc("(", v, s);
    assert w[|w| - |s|..] == s;
    assert w[..|w| - |s|] == v;
  }

  /** `1000000000 + (number - 1) * 1000`: the first value reserved for the
      extension with the given number. */
  function BaseOffset(number: int): (b: int)
    ensures number >= 1 ==> b >= 1000000000
  {
    1000000000 + (number - 1) * 1000
  }

  /** The integer `parse_offset` converts to text: the element's `offset`
      plus the base, negated when `dir` is `-`. */
  function OffsetValue(e: Elem, baseOffset: int): (v: int)
    requires e.offset.Some?
  {
    var offset := e.offset.value + baseOffset;
    if e.dir == Some("-") then -offset else offset
  }

  /** `parse_offset`. */
  function ParseOffset(e: Elem, baseOffset: int): (r: string)
    requires e.offset.Some?
    ensures |r| > 0 && (r[0] == '-' || IsDigit(r[0]))
    ensures forall i :: 1 <= i < |r| ==> IsDigit(r[i])
    ensures r[0] == '-' <==> OffsetValue(e, baseOffset) < 0
  {
    IntToString(OffsetValue(e, baseOffset))
  }

  /** The text `parse_offset` writes reads back as the offset value, and it
      is negative exactly when `dir` is `-` (for a non-negative offset of an
      extension numbered from 1). */
  lemma ParseOffsetValue(e: Elem, number: int)
    requires e.offset.Some? && e.offset.value >= 0 && number >= 1
    ensures NumeralValue(ParseOffset(e, BaseOffset(number))) == OffsetValue(e, BaseOffset(number))
    ensures ParseOffset(e, BaseOffset(number))[0] == '-' <==> e.dir == Some("-")
  {
    var v := OffsetValue(e, BaseOffset(number));
    IntToStringRoundTrip(v);
    if v >= 0 {
      assert IsDigit(NatToString(v)[0]);
    }
  }

  /** Offset 0 with `dir="-"` in extension number 5 is `-1000004000`. */
  lemma ParseOffsetExample()
    ensures ParseOffset(Elem("enum", "VK_ERROR_EXAMPLE", None, None, Some(0), Some("-")), BaseOffset(5))
            == "-1000004000"
  {
    assert NatToString(1) == "1";
    assert NatToString(10) == "10";
    assert NatToString(100) == "100";
    assert NatToString(1000) == "1000";
    assert NatToString(10000) == "10000";
    assert NatToString(100000) == "100000";
    assert NatToString(1000004) == "1000004";
    assert NatToString(10000040) == "10000040";
    assert NatToString(100000400) == "100000400";
    assert NatToString(1000004000) == "1000004000";
  }
}
