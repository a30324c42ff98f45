/** `parse_enums`: one block of constants per `<enums>` element. */
module Enums {
  import opened Wrappers
  import opened Text
  import opened Names
  import opened Registry
  import opened CTypes
  import opened Templates

  const ENUMS_HEADER: string := "# ENUMS\n\n"

  /** The name an `<enums>` block is defined under: spaces become
      underscores, then the prefix goes. */
  function EnumsName(g: EnumsGroup): string {
    RemovePrefix(ReplaceAll(g.name, " ", "_"))
  }

  /** `value`, or else `1<<bitpos`. Without either the source fails on
      `None`, hence the precondition. */
  predicate HasValue(e: Elem) {
    Truthy(e.value) || e.bitpos.Some?
  }

  function EnumValue(e: Elem): string
    requires HasValue(e)
  {
    if Truthy(e.value) then e.value.value else "1<<" + e.bitpos.value
  }

  /** The constants of a block: only children tagged `enum` are used. */
  predicate EnumsReady(children: seq<Elem>) {
    forall i :: 0 <= i < |children| && children[i].tag == "enum" ==> HasValue(children[i])
  }

  function EnumLines(children: seq<Elem>): string
    requires EnumsReady(children)
  {
    if children == [] then ""
    else
      var e := children[0];
      (if e.tag == "enum" then EnumLine(RemovePrefix(e.name), PythonizedValue(EnumValue(e))) else "")
      + EnumLines(children[1..])
  }

  function EnumsBlock(g: EnumsGroup): string
    requires EnumsReady(g.children)
  {
    EnumBlock(EnumsName(g), EnumLines(g.children))
  }

  predicate AllReady(gs: seq<EnumsGroup>) {
    forall i :: 0 <= i < |gs| ==> EnumsReady(gs[i].children)
  }

  /** The blocks of all `<enums>` elements, in document order. */
  function EnumsBody(gs: seq<EnumsGroup>): string
    requires AllReady(gs)
  {
    if gs == [] then "" else EnumsBody(gs[..|gs| - 1]) + EnumsBlock(gs[|gs| - 1])
  }

  /** Everything `parse_enums` writes. */
  function EnumsText(gs: seq<EnumsGroup>): string
    requires AllReady(gs)
  {
    ENUMS_HEADER + EnumsBody(gs)
  }

  /** The names `parse_enums` appends to `DEFINED_IDENTIFIERS`. */
  function EnumsNames(gs: seq<EnumsGroup>): (r: seq<string>)
    ensures |r| == |gs|
  {
    if gs == [] then [] else EnumsNames(gs[..|gs| - 1]) + [EnumsName(gs[|gs| - 1])]
  }

  /** An identifier made of letters, digits and underscores can be used as
      a Python name; the block name at least holds no space. */
  lemma EnumsNameHasNoSpace(g: EnumsGroup)
    ensures ' ' !in EnumsName(g)
  {
    var n := ReplaceAll(g.name, " ", "_");
    ReplaceCharRemoves(g.name, ' ', "_");
    if StartsWith(n, "Vk") || StartsWith(n, "VK_") || StartsWith(n, "vk") {
      forall i | 0 <= i < |EnumsName(g)| ensures EnumsName(g)[i] != ' ' {
        assert EnumsName(g)[i] in n;
      }
    } else if StartsWith(n, PFN_PREFIX) {
      ReplaceAllNoNewChar(n, PFN_PREFIX, "fn_", ' ');
    }
  }

  /** A block name without spaces, such as `VkResult`, only loses its
      prefix. */
  lemma EnumsNameWithoutSpaces(g: EnumsGroup)
    requires ' ' !in g.name
    ensures EnumsName(g) == RemovePrefix(g.name)
  {
    ReplaceCharAbsent(g.name, ' ', "_");
  }

  /** Children that are not `enum` (`unused`, comments) write nothing: the
      lines of a block are the lines of its parts. */
  lemma {:induction false} EnumLinesConcat(a: seq<Elem>, b: seq<Elem>)
    requires EnumsReady(a) && EnumsReady(b)
    ensures EnumsReady(a + b)
    ensures EnumLines(a + b) == EnumLines(a) + EnumLines(b)
    decreases |a|
  {
    EnumsReadyConcat(a, b);
    if a == [] {
      assert a + b == b;
    } else {
      var e := a[0];
      assert (a + b)[0] == e;
      assert (a + b)[1..] == a[1..] + b;
      assert EnumsReady(a[1..]) by {
        forall i | 0 <= i < |a[1..]| && a[1..][i].tag == "enum" ensures HasValue(a[1..][i]) {
          assert a[1..][i] == a[i + 1];
        }
      }
      EnumLinesConcat(a[1..], b);
      var line := if e.tag == "enum" then EnumLine(RemovePrefix(e.name), PythonizedValue(EnumValue(e))) else "";
      ConcatAssoc(line, EnumLines(a[1..]), EnumLines(b));
    }
  }

  lemma EnumsReadyConcat(a: seq<Elem>, b: seq<Elem>)
    requires EnumsReady(a) && EnumsReady(b)
    ensures EnumsReady(a + b)
  {
    forall i | 0 <= i < |a + b| && (a + b)[i].tag == "enum" ensures HasValue((a + b)[i]) {
      if i < |a| {
        assert (a + b)[i] == a[i];
      } else {
        assert (a + b)[i] == b[i - |a|];
      }
    }
  }

  /** A bit flag without a value is written as the shift `1<<bitpos`,
      untouched by `pythonize_value`. */
  lemma EnumValueBitpos(e: Elem)
    requires !Truthy(e.value) && e.bitpos.Some? && e.bitpos.value != []
    requires forall i :: 0 <= i < |e.bitpos.value| ==> IsDigit(e.bitpos.value[i])
    ensures PythonizedValue(EnumValue(e)) == "1<<" + e.bitpos.value
  {
    var v := "1<<" + e.bitpos.value;
    var b := e.bitpos.value;
    assert v[0] == '1';
    assert v[|v| - 1] == b[|b| - 1];
    StripUntouched(v, PARENTHESES);
    NoSuffixAfterDigit(v);
    PythonizedValuePlain(v);
  }
}
