/** The output templates: the two normalisation passes `prepare_templates`
    applies to every template (`lstrip_t`, then `expand`), and the text each
    prepared template produces once its fields are filled in. */
module Templates {
  import opened Text

  /** `INDENT`: spaces per indentation step. */
  const INDENT: nat := 4
  const INDENTATION: string := "    "

  /** The length of the first line of `s`, its `\n` included when it has one
      (`str.splitlines(True)` with `\n` as the only line boundary). */
  function LineLength(s: string): (k: nat)
    requires s != []
    ensures 0 < k <= |s|
    ensures forall i :: 0 <= i < k - 1 ==> s[i] != '\n'
    ensures k < |s| ==> s[k - 1] == '\n'
    decreases |s|
  {
    if s[0] == '\n' || |s| == 1 then 1 else 1 + LineLength(s[1..])
  }

  /** `lstrip_t`: every line loses its leading whitespace. */
  function LstripT(s: string): string
    decreases |s|
  {
    if s == [] then "" else
      var k := LineLength(s);
      Lstrip(s[..k]) + LstripT(s[k..])
  }

  /** No whitespace starts the text or follows a line break. */
  ghost predicate LinesStartClean(r: string) {
    (r != [] ==> !IsSpace(r[0]))
    && forall i :: 0 <= i < |r| - 1 && r[i] == '\n' ==> !IsSpace(r[i + 1])
  }

  lemma {:induction false} LstripTStartsLinesClean(s: string)
    ensures LinesStartClean(LstripT(s))
    decreases |s|
  {
    if s != [] {
      var k := LineLength(s);
      var head := Lstrip(s[..k]);
      var rest := LstripT(s[k..]);
      LstripTStartsLinesClean(s[k..]);
      assert LstripT(s) == head + rest;
      assert forall i :: 0 <= i < |head| - 1 ==> head[i] != '\n' by {
        forall i | 0 <= i < |head| - 1 ensures head[i] != '\n' {
          assert head[i] == s[..k][k - |head| + i];
        }
      }
      if head == [] {
        assert head + rest == rest;
      } else {
        var r := head + rest;
        forall i | 0 <= i < |r| - 1 && r[i] == '\n' ensures !IsSpace(r[i + 1]) {
          if i >= |head| {
            assert r[i] == rest[i - |head|] && r[i + 1] == rest[i - |head| + 1];
          } else if i == |head| - 1 {
            assert r[i + 1] == rest[0];
          }
        }
      }
    }
  }

  /** A line made of indentation and text keeps its text, trailing whitespace
      included, and loses the indentation. */
  lemma LstripTLine(indent: string, text: string, rest: string)
    requires forall i :: 0 <= i < |indent| ==> IsSpace(indent[i]) && indent[i] != '\n'
    requires text != [] && !IsSpace(text[0]) && text[|text| - 1] == '\n'
    requires forall i :: 0 <= i < |text| - 1 ==> text[i] != '\n'
    ensures LstripT(indent + text + rest) == text + LstripT(rest)
  {
    var s := indent + text + rest;
    var n := |indent| + |text|;
    assert s[n - 1] == '\n';
    var k := LineLength(s);
    assert k == n;
    assert s[..k] == indent + text;
    assert s[k..] == rest;
    LstripIndented(indent, text);
  }

  /** A line of whitespace alone disappears, its line break with it. */
  lemma LstripTBlankLine(blank: string, rest: string)
    requires blank != [] && blank[|blank| - 1] == '\n'
    requires forall i :: 0 <= i < |blank| ==> IsSpace(blank[i])
    requires forall i :: 0 <= i < |blank| - 1 ==> blank[i] != '\n'
    ensures LstripT(blank + rest) == LstripT(rest)
  {
    var s := blank + rest;
    var k := LineLength(s);
    assert s[|blank| - 1] == '\n';
    assert k == |blank|;
    assert s[..k] == blank;
    assert s[k..] == rest;
    assert Lstrip(blank) == [];
  }

  /** A last line without a line break and without indentation is kept. */
  lemma LstripTLastLine(text: string)
    requires text != [] && !IsSpace(text[0])
    requires forall i :: 0 <= i < |text| ==> text[i] != '\n'
    ensures LstripT(text) == text
  {
    var k := LineLength(text);
    assert k == |text|;
    assert text[..k] == text && text[k..] == [];
  }

  lemma LstripIndented(indent: string, text: string)
    requires forall i :: 0 <= i < |indent| ==> IsSpace(indent[i])
    requires text != [] && !IsSpace(text[0])
    ensures Lstrip(indent + text) == text
  {
    var s := indent + text;
    var r := Lstrip(s);
    var d := |s| - |r|;
    assert !IsSpace(s[|indent|]);
    assert forall j :: 0 <= j < |indent| ==> IsSpace(s[j]);
    assert r != [] ==> r[0] == s[d];
    assert d == |indent|;
  }

  /** `expand`: backticks become one indentation step, `?` disappears and `$`
      becomes a line break, one `str.replace` after the other. */
  function Expand(s: string): string {
    ReplaceAll(ReplaceAll(ReplaceAll(s, "`", INDENTATION), "?", ""), "$", "\n")
  }

  /** What `expand` makes of one character. */
  function ExpandChar(c: char): string {
    if c == '`' then INDENTATION
    else if c == '?' then ""
    else if c == '$' then "\n"
    else [c]
  }

  /** `expand` as a single pass, character by character. */
  function ExpandEach(s: string): string {
    if s == [] then "" else ExpandChar(s[0]) + ExpandEach(s[1..])
  }

  predicate IsMarker(c: char) {
    c == '`' || c == '?' || c == '$'
  }

  predicate NoMarkers(s: string) {
    forall i :: 0 <= i < |s| ==> !IsMarker(s[i])
  }

  /** The three replacements in a row act on each character independently:
      none of them produces a character a later one replaces. */
  lemma {:induction false} ExpandByCharacter(s: string)
    ensures Expand(s) == ExpandEach(s)
    decreases |s|
  {
    if s != [] {
      var x, rest := s[0], s[1..];
      assert s == [x] + rest;
      ReplaceCharConcat([x], rest, '`', INDENTATION);
      var a1, b1 := ReplaceAll([x], "`", INDENTATION), ReplaceAll(rest, "`", INDENTATION);
      ReplaceCharConcat(a1, b1, '?', "");
      var a2, b2 := ReplaceAll(a1, "?", ""), ReplaceAll(b1, "?", "");
      ReplaceCharConcat(a2, b2, '$', "\n");
      assert Expand(s) == ReplaceAll(a2, "$", "\n") + Expand(rest);
      ExpandByCharacter(rest);
      if x == '`' {
        assert a1 == INDENTATION;
        ReplaceCharAbsent(INDENTATION, '?', "");
        ReplaceCharAbsent(INDENTATION, '$', "\n");
      } else {
        assert a1 == [x];
        if x == '?' {
          assert a2 == "";
        } else {
          assert a2 == [x];
        }
      }
    }
  }

  lemma {:induction false} ExpandEachClean(s: string)
    ensures NoMarkers(ExpandEach(s))
    decreases |s|
  {
    if s != [] {
      ExpandEachClean(s[1..]);
      var h := ExpandChar(s[0]);
      assert NoMarkers(h);
      var r := h + ExpandEach(s[1..]);
      forall i | 0 <= i < |r| ensures !IsMarker(r[i]) {
        if i >= |h| {
          assert r[i] == ExpandEach(s[1..])[i - |h|];
        }
      }
    }
  }

  lemma {:induction false} ExpandEachPlain(s: string)
    requires NoMarkers(s)
    ensures ExpandEach(s) == s
    decreases |s|
  {
    if s != [] {
      ExpandEachPlain(s[1..]);
      assert [s[0]] + s[1..] == s;
    }
  }

  lemma {:induction false} ExpandEachConcat(a: string, b: string)
    ensures ExpandEach(a + b) == ExpandEach(a) + ExpandEach(b)
    decreases |a|
  {
    if a == [] {
      assert a + b == b;
    } else {
      assert (a + b)[0] == a[0];
      assert (a + b)[1..] == a[1..] + b;
      ExpandEachConcat(a[1..], b);
    }
  }

  /** `expand` leaves no backtick, `?` or `$`. */
  lemma ExpandRemovesMarkers(s: string)
    ensures '`' !in Expand(s) && '?' !in Expand(s) && '$' !in Expand(s)
  {
    ExpandByCharacter(s);
    ExpandEachClean(s);
  }

  /** Expanding an expanded template changes nothing more. */
  lemma ExpandIdempotent(s: string)
    ensures Expand(Expand(s)) == Expand(s)
  {
    ExpandByCharacter(s);
    ExpandByCharacter(Expand(s));
    ExpandEachClean(s);
    ExpandEachPlain(Expand(s));
  }

  /** What `prepare_templates` does to each template. */
  function Prepare(t: string): string {
    Expand(LstripT(t))
  }

  // Each function below is a template after `prepare_templates`, with its
  // fields filled in: `lstrip_t` has dropped the blank first line of the
  // multi-line templates, and `expand` has turned each backtick into
  // INDENTATION and each `$` into a line break.

  function HandleLine(name: string, handleType: string): string {
    name + " = " + handleType + "\n"
  }

  function EnumLine(name: string, value: string): string {
    name + " = " + value + "\n"
  }

  function EnumBlock(name: string, lines: string): string {
    name + " = c_uint\n" + lines + "\n"
  }

  /** `STRUCTURE_ARGS_TEMPLATE`; `UNION_ARGS_TEMPLATE` is the same text. */
  function MemberLine(name: string, memberType: string): string {
    INDENTATION + "('" + name + "', " + memberType + "),\n"
  }

  /** `STRUCTURE_TEMPLATE` when `isStruct`, else `UNION_TEMPLATE`. */
  function StructureBlock(name: string, args: string, isStruct: bool): string {
    name + " = " + (if isStruct then "define_structure" else "define_union") + "('" + name + "',\n" + args + ")\n\n"
  }

  function CommandArg(argType: string): string {
    argType + ", "
  }

  function CommandDefinition(name: string, returnType: string, args: string): string {
    INDENTATION + "(b'" + name + "', " + returnType + ", " + args + "),\n"
  }

  function CommandFamily(family: string, definitions: string): string {
    family + "Functions = (\n" + definitions + ")\n\n"
  }

  function GetInstanceProcAddrBlock(name: string, returnType: string, args: string): string {
    name + " = vk.vk" + name + "\n" + name + ".restype = " + returnType + "\n" + name + ".argtypes = (" + args + ")\n"
  }

  function ExtensionBlock(name: string, enums: string): string {
    "#" + name + "\n" + enums + "\n"
  }
}

