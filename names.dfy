/** Name normalisation: turning Vulkan registry identifiers into the
    identifiers written to the generated Python module. */
module Names {
  import opened Text

  /** The regular expression class `[A-Z]`: ASCII capitals only. */
  predicate IsUpper(c: char) {
    'A' <= c <= 'Z'
  }

  /** `str.lower` on a character matched by `[A-Z]`. */
  function Lower(c: char): (l: char)
    ensures !IsUpper(l)
  {
    if IsUpper(c) then (c as int + 32) as char else c
  }

  /** `re.sub('[^A-Z]([A-Z])[^A-Z]|[^A-Z]([A-Z])', lower, name)`: a
      left-to-right scan for non-overlapping matches in which, at every
      position, the three-character alternative is tried first. It becomes
      `c0 + '_' + lower(c1) + c2`; the two-character alternative becomes
      `c0 + '_' + c1`; any other character is copied and the scan moves on. */
  function ToSnakeCase(s: string): string
    decreases |s|
  {
    if |s| >= 3 && !IsUpper(s[0]) && IsUpper(s[1]) && !IsUpper(s[2]) then
      [s[0], '_', Lower(s[1]), s[2]] + ToSnakeCase(s[3..])
    else if |s| >= 2 && !IsUpper(s[0]) && IsUpper(s[1]) then
      [s[0], '_', s[1]] + ToSnakeCase(s[2..])
    else if s == [] then
      ""
    else
      [s[0]] + ToSnakeCase(s[1..])
  }

  predicate NoUpper(s: string) {
    forall i :: 0 <= i < |s| ==> !IsUpper(s[i])
  }

  /** A name without an ASCII capital contains no match and is unchanged. */
  lemma {:induction false} SnakeCaseWithoutCapitals(s: string)
    requires NoUpper(s)
    ensures ToSnakeCase(s) == s
    decreases |s|
  {
    if s != [] {
      SnakeCaseWithoutCapitals(s[1..]);
      assert [s[0]] + s[1..] == s;
    }
  }

  /** The letters of a name, case-folded, with the underscores left out:
      what snake-casing must not change. */
  function Skeleton(s: string): string {
    if s == [] then ""
    else if s[0] == '_' then Skeleton(s[1..])
    else [Lower(s[0])] + Skeleton(s[1..])
  }

  lemma {:induction false} SkeletonConcat(a: string, b: string)
    ensures Skeleton(a + b) == Skeleton(a) + Skeleton(b)
    decreases |a|
  {
    if a == [] {
      assert a + b == b;
    } else {
      assert (a + b)[0] == a[0];
      assert (a + b)[1..] == a[1..] + b;
      SkeletonConcat(a[1..], b);
    }
  }

  lemma {:induction false} CountConcat(a: string, b: string, c: char)
    ensures Count(a + b, c) == Count(a, c) + Count(b, c)
    decreases |a|
  {
    if a == [] {
      assert a + b == b;
    } else {
      assert (a + b)[0] == a[0];
      assert (a + b)[1..] == a[1..] + b;
      CountConcat(a[1..], b, c);
    }
  }

  /** Snake-casing only inserts underscores and lower-cases capitals: the
      case-folded letters are the same, every character it adds is an
      underscore, and it never shortens the name. */
  lemma {:induction false} SnakeCaseOnlyInsertsUnderscores(s: string)
    ensures Skeleton(ToSnakeCase(s)) == Skeleton(s)
    ensures |ToSnakeCase(s)| - |s| == Count(ToSnakeCase(s), '_') - Count(s, '_')
    ensures |ToSnakeCase(s)| >= |s|
    decreases |s|
  {
    if |s| >= 3 && !IsUpper(s[0]) && IsUpper(s[1]) && !IsUpper(s[2]) {
      ThreeFormInsertsUnderscore(s[0], s[1], s[2]);
      assert s[..3] == [s[0], s[1], s[2]];
      SnakeCaseOnlyInsertsUnderscores(s[3..]);
      InsertedJoin([s[0], '_', Lower(s[1]), s[2]], s[..3], ToSnakeCase(s[3..]), s[3..]);
      assert s[..3] + s[3..] == s;
    } else if |s| >= 2 && !IsUpper(s[0]) && IsUpper(s[1]) {
      TwoFormInsertsUnderscore(s[0], s[1]);
      assert s[..2] == [s[0], s[1]];
      SnakeCaseOnlyInsertsUnderscores(s[2..]);
      InsertedJoin([s[0], '_', s[1]], s[..2], ToSnakeCase(s[2..]), s[2..]);
      assert s[..2] + s[2..] == s;
    } else if s != [] {
      SnakeCaseOnlyInsertsUnderscores(s[1..]);
      InsertedJoin([s[0]], [s[0]], ToSnakeCase(s[1..]), s[1..]);
      assert [s[0]] + s[1..] == s;
    }
  }

  /** The three-character replacement adds one underscore and keeps the
      case-folded letters. */
  lemma ThreeFormInsertsUnderscore(a: char, b: char, c: char)
    requires IsUpper(b)
    ensures Skeleton([a, '_', Lower(b), c]) == Skeleton([a, b, c])
    ensures Count([a, '_', Lower(b), c], '_') == Count([a, b, c], '_') + 1
  {
    var head := [a, '_', Lower(b), c];
    assert head[1..] == ['_', Lower(b), c];
    assert head[1..][1..] == [Lower(b), c];
    assert head[1..][1..][1..] == [c];
    assert [a, b, c][1..] == [b, c];
    assert [a, b, c][1..][1..] == [c];
    assert Lower(b) != '_' && b != '_' && Lower(Lower(b)) == Lower(b);
    assert Skeleton(head[1..][1..]) == [Lower(b)] + Skeleton([c]);
    assert Skeleton(head[1..]) == Skeleton(head[1..][1..]);
    assert Skeleton([a, b, c][1..]) == [Lower(b)] + Skeleton([c]);
    assert Count(head[1..][1..], '_') == Count([c], '_');
    assert Count(head[1..], '_') == 1 + Count([c], '_');
    assert Count([a, b, c][1..], '_') == Count([c], '_');
  }

  /** The two-character replacement adds one underscore and keeps the
      case-folded letters. */
  lemma TwoFormInsertsUnderscore(a: char, b: char)
    requires IsUpper(b)
    ensures Skeleton([a, '_', b]) == Skeleton([a, b])
    ensures Count([a, '_', b], '_') == Count([a, b], '_') + 1
  {
    assert [a, '_', b][1..] == ['_', b];
    assert [a, '_', b][1..][1..] == [b];
    assert [a, b][1..] == [b];
  }

  lemma InsertedJoin(head: string, orig: string, out: string, rest: string)
    requires Skeleton(head) == Skeleton(orig) && |head| - |orig| == Count(head, '_') - Count(orig, '_')
    requires Skeleton(out) == Skeleton(rest) && |out| - |rest| == Count(out, '_') - Count(rest, '_')
    ensures Skeleton(head + out) == Skeleton(orig + rest)
    ensures |head + out| - |orig + rest| == Count(head + out, '_') - Count(orig + rest, '_')
  {
    SkeletonConcat(head, out);
    SkeletonConcat(orig, rest);
    CountConcat(head, out, '_');
    CountConcat(orig, rest, '_');
  }

  /** Snake-casing is not idempotent: an acronym preceded by a lower-case
      letter gains a second underscore when the result is snake-cased again. */
  lemma SnakeCaseNotIdempotent()
    ensures ToSnakeCase("fooABC") == "foo_ABC"
    ensures ToSnakeCase("foo_ABC") == "foo__ABC"
  {
    assert ToSnakeCase("C") == "C";
    assert ToSnakeCase("BC") == "BC";
    assert ToSnakeCase("oABC") == "o_ABC";
    assert ToSnakeCase("ooABC") == "oo_ABC";
    assert ToSnakeCase("_ABC") == "__ABC";
    assert ToSnakeCase("o_ABC") == "o__ABC";
    assert ToSnakeCase("oo_ABC") == "oo__ABC";
  }

  const STRIP_PREFIXES: seq<string> := ["Vk", "VK_", "vk"]
  const PFN_PREFIX: string := "PFN_vk"

  /** `remove_prefix`: the first of `Vk`, `VK_`, `vk` that starts the name
      is removed; otherwise a name starting with `PFN_vk` has every
      occurrence of `PFN_vk` replaced by `fn_` (`str.replace`); any other
      name is returned as it is. */
  function RemovePrefix(name: string): (r: string)
    ensures |r| <= |name|
  {
    if StartsWith(name, "Vk") then name[2..]
    else if StartsWith(name, "VK_") then name[3..]
    else if StartsWith(name, "vk") then name[2..]
    else if StartsWith(name, PFN_PREFIX) then
      ReplaceAllNotLonger(name, PFN_PREFIX, "fn_");
      ReplaceAll(name, PFN_PREFIX, "fn_")
    else name
  }

  /** The second entry of the replace-prefix table, `to_snake_case('PFN_vk')`,
      is `PFN_vk` itself, so the table has one prefix in effect. */
  lemma SnakeCasePfnPrefix()
    ensures ToSnakeCase(PFN_PREFIX) == PFN_PREFIX
  {
    SnakeCaseWithoutCapitals("_vk");
  }

  /** The first prefix of the table that starts the name is exactly what is
      removed. */
  lemma RemovePrefixStripsFirstMatch(name: string, i: nat)
    requires i < |STRIP_PREFIXES| && StartsWith(name, STRIP_PREFIXES[i])
    requires forall j :: 0 <= j < i ==> !StartsWith(name, STRIP_PREFIXES[j])
    ensures name == STRIP_PREFIXES[i] + RemovePrefix(name)
  {
    var p := STRIP_PREFIXES[i];
    assert name == name[..|p|] + name[|p|..];
    if i == 1 {
      assert !StartsWith(name, STRIP_PREFIXES[0]);
    } else if i == 2 {
      assert !StartsWith(name, STRIP_PREFIXES[0]);
      assert !StartsWith(name, STRIP_PREFIXES[1]);
    }
  }

  /** A `PFN_vk` name becomes `fn_` followed by the rest of the name, in
      which every further `PFN_vk` is also replaced by `fn_`. */
  lemma RemovePrefixFunctionPointer(name: string)
    requires StartsWith(name, PFN_PREFIX)
    ensures RemovePrefix(name) == "fn_" + ReplaceAll(name[6..], PFN_PREFIX, "fn_")
  {
    assert name[0] == 'P';
    assert name[..|PFN_PREFIX|] == PFN_PREFIX;
  }

  /** A name with none of the four prefixes is returned unchanged. */
  lemma RemovePrefixUnprefixed(name: string)
    requires forall p :: p in STRIP_PREFIXES ==> !StartsWith(name, p)
    requires !StartsWith(name, PFN_PREFIX)
    ensures RemovePrefix(name) == name
  {
    assert !StartsWith(name, STRIP_PREFIXES[0]);
    assert !StartsWith(name, STRIP_PREFIXES[1]);
    assert !StartsWith(name, STRIP_PREFIXES[2]);
  }

  /** The dependency lookup searches for `'Vk' + t`; the struct it finds is
      registered under `t` again. */
  lemma RemovePrefixVk(t: string)
    ensures RemovePrefix("Vk" + t) == t
  {
    assert ("Vk" + t)[..2] == "Vk";
  }

  /** A numeral starts with a digit or `-`, so it carries no prefix. */
  lemma RemovePrefixNumeral(n: int)
    ensures RemovePrefix(IntToString(n)) == IntToString(n)
  {
    var s := IntToString(n);
    assert s[0] == '-' || IsDigit(s[0]);
    assert !StartsWith(s, "Vk") && !StartsWith(s, "VK_") && !StartsWith(s, "vk");
    assert !StartsWith(s, PFN_PREFIX);
  }

  const POINTER_MARKERS: seq<string> := ["p_", "pp_", "pfn_"]

  function DropPrefix(s: string, p: string): string {
    if StartsWith(s, p) then s[|p|..] else s
  }

  /** The markers of `ps` removed one after the other, each if the name
      (as left by the previous ones) starts with it. */
  function DropMarkers(s: string, ps: seq<string>): string {
    if ps == [] then s else DropPrefix(DropMarkers(s, ps[..|ps| - 1]), ps[|ps| - 1])
  }

  /** `pythonize_field_name`: snake-case the name, then drop the `p_`,
      `pp_` and `pfn_` pointer markers in that order. */
  function FieldName(raw: string): string {
    DropMarkers(ToSnakeCase(raw), POINTER_MARKERS)
  }

  /** The loop of `pythonize_field_name` over the marker table. */
  method PythonizeFieldName(raw: string) returns (name: string)
    ensures name == FieldName(raw)
  {
    name := ToSnakeCase(raw);
    for i := 0 to |POINTER_MARKERS|
      invariant name == DropMarkers(ToSnakeCase(raw), POINTER_MARKERS[..i])
    {
      var p := POINTER_MARKERS[i];
      assert POINTER_MARKERS[..i + 1][..i] == POINTER_MARKERS[..i];
      if StartsWith(name, p) {
        name := name[|p|..];
      }
    }
    assert POINTER_MARKERS[..|POINTER_MARKERS|] == POINTER_MARKERS;
  }

  /** Dropping markers only ever removes a prefix. */
  lemma {:induction false} DropMarkersSuffix(s: string, ps: seq<string>)
    ensures |DropMarkers(s, ps)| <= |s|
    ensures DropMarkers(s, ps) == s[|s| - |DropMarkers(s, ps)|..]
    decreases |ps|
  {
    if ps != [] {
      DropMarkersSuffix(s, ps[..|ps| - 1]);
    }
  }

  /** The field name is what is left of the snake-cased name once a prefix
      is cut off. */
  lemma FieldNameIsSuffix(raw: string)
    ensures |FieldName(raw)| <= |ToSnakeCase(raw)|
    ensures FieldName(raw) == ToSnakeCase(raw)[|ToSnakeCase(raw)| - |FieldName(raw)|..]
  {
    DropMarkersSuffix(ToSnakeCase(raw), POINTER_MARKERS);
  }

  /** Field names as the generator writes them. */
  lemma FieldNameExamples()
    ensures FieldName("pNext") == "next"
    ensures FieldName("ppData") == "data"
  {
    PointerFieldName();
    DoublePointerFieldName();
  }

  lemma PointerFieldName()
    ensures FieldName("pNext") == "next"
  {
    assert ToSnakeCase("pNext") == "p_next" by {
      assert ToSnakeCase("pNext") == "p_ne" + ToSnakeCase("xt");
      SnakeCaseWithoutCapitals("xt");
    }
    MarkersUnfold("p_next");
    assert StartsWith("p_next", "p_") && "p_next"[2..] == "next";
    assert !StartsWith("next", "pp_") && !StartsWith("next", "pfn_") by {
      assert "next"[0] == 'n';
    }
  }

  lemma DoublePointerFieldName()
    ensures FieldName("ppData") == "data"
  {
    assert ToSnakeCase("ppData") == "pp_data" by {
      assert ToSnakeCase("ppData") == "p" + ToSnakeCase("pData");
      assert ToSnakeCase("pData") == "p_da" + ToSnakeCase("ta");
      SnakeCaseWithoutCapitals("ta");
    }
    MarkersUnfold("pp_data");
    assert !StartsWith("pp_data", "p_") by {
      assert "pp_data"[1] == 'p';
    }
    assert StartsWith("pp_data", "pp_") && "pp_data"[3..] == "data";
    assert !StartsWith("data", "pfn_") by {
      assert "data"[0] == 'd';
    }
  }

  /** The three marker steps of `pythonize_field_name` spelled out. */
  lemma MarkersUnfold(s: string)
    ensures DropMarkers(s, POINTER_MARKERS) == DropPrefix(DropPrefix(DropPrefix(s, "p_"), "pp_"), "pfn_")
  {
    var ms := POINTER_MARKERS;
    assert ms[..|ms| - 1] == ["p_", "pp_"] && ms[|ms| - 1] == "pfn_";
    assert ["p_", "pp_"][..1] == ["p_"];
    assert ["p_"][..0] == [];
    assert DropMarkers(s, ["p_"]) == DropPrefix(s, "p_");
    assert DropMarkers(s, ["p_", "pp_"]) == DropPrefix(DropPrefix(s, "p_"), "pp_");
  }
}
