/** `parse_extensions`: the constants each extension's `<require>` block
    adds. */
module Extensions {
  import opened Wrappers
  import opened Text
  import opened Names
  import opened Registry
  import opened CTypes
  import opened Templates

  const EXTENSIONS_HEADER: string := "\n# EXTENSIONS \n\n"

  /** `value`, else `1<<bitpos`, else the offset from the extension's base
      value; an element with none of them makes the source fail. */
  predicate HasExtensionValue(e: Elem) {
    Truthy(e.value) || e.bitpos.Some? || e.offset.Some?
  }

  function ExtensionValue(e: Elem, baseOffset: int): string
    requires HasExtensionValue(e)
  {
    if Truthy(e.value) then e.value.value
    else if e.bitpos.Some? then "1<<" + e.bitpos.value
    else ParseOffset(e, baseOffset)
  }

  /** The `<require>` block has an `enum` child (the placeholder test reads
      the first one), and, unless the extension is a placeholder, each of
      its `enum` children has a value. */
  predicate ExtensionReady(x: Extension) {
    FirstEnum(x.require).Some?
    && (FirstEnum(x.require).value.value != Some("0") ==>
          forall i :: 0 <= i < |x.require| && x.require[i].tag == "enum" ==> HasExtensionValue(x.require[i]))
  }

  /** A placeholder extension is one whose first `enum` has the value `0`. */
  predicate IsPlaceholder(x: Extension)
    requires ExtensionReady(x)
  {
    FirstEnum(x.require).value.value == Some("0")
  }

  function ExtensionLines(children: seq<Elem>, baseOffset: int): string
    requires forall i :: 0 <= i < |children| && children[i].tag == "enum" ==> HasExtensionValue(children[i])
  {
    if children == [] then ""
    else
      var e := children[0];
      (if e.tag == "enum" then EnumLine(RemovePrefix(e.name), RemovePrefix(ExtensionValue(e, baseOffset))) else "")
      + ExtensionLines(children[1..], baseOffset)
  }

  /** What one extension contributes: nothing for a placeholder, else its
      name as a comment and its constants. */
  function ExtensionText(x: Extension): string
    requires ExtensionReady(x)
  {
    if IsPlaceholder(x) then ""
    else ExtensionBlock(x.name, ExtensionLines(x.require, BaseOffset(x.number)))
  }

  predicate AllReady(xs: seq<Extension>) {
    forall i :: 0 <= i < |xs| ==> ExtensionReady(xs[i])
  }

  function ExtensionsBody(xs: seq<Extension>): string
    requires AllReady(xs)
  {
    if xs == [] then "" else ExtensionsBody(xs[..|xs| - 1]) + ExtensionText(xs[|xs| - 1])
  }

  /** Everything `parse_extensions` writes. */
  function ExtensionsText(xs: seq<Extension>): string
    requires AllReady(xs)
  {
    EXTENSIONS_HEADER + ExtensionsBody(xs)
  }

  lemma ExtensionsPrefix(xs: seq<Extension>, n: nat)
    requires AllReady(xs) && n <= |xs|
    ensures AllReady(xs[..n])
  {
    forall i | 0 <= i < n ensures ExtensionReady(xs[..n][i]) {
      assert xs[..n][i] == xs[i];
    }
  }

  /** One more extension adds its own text. */
  lemma ExtensionsBodyStep(xs: seq<Extension>, i: nat)
    requires AllReady(xs) && i < |xs|
    ensures AllReady(xs[..i]) && AllReady(xs[..i + 1])
    ensures ExtensionsBody(xs[..i + 1]) == ExtensionsBody(xs[..i]) + ExtensionText(xs[i])
  {
    ExtensionsPrefix(xs, i);
    ExtensionsPrefix(xs, i + 1);
    assert xs[..i + 1][..i] == xs[..i];
    assert xs[..i + 1][i] == xs[i];
  }

  /** The text is written extension by extension, in document order. */
  lemma {:induction false} ExtensionsBodyConcat(a: seq<Extension>, b: seq<Extension>)
    requires AllReady(a) && AllReady(b)
    ensures AllReady(a + b)
    ensures ExtensionsBody(a + b) == ExtensionsBody(a) + ExtensionsBody(b)
    decreases |b|
  {
    assert AllReady(a + b) by {
      forall i | 0 <= i < |a + b| ensures ExtensionReady((a + b)[i]) {
        if i >= |a| { assert (a + b)[i] == b[i - |a|]; }
      }
    }
    if b == [] {
      assert a + b == a;
    } else {
      var c := b[..|b| - 1];
      var last := b[|b| - 1];
      assert AllReady(c) by {
        forall i | 0 <= i < |c| ensures ExtensionReady(c[i]) {
          assert c[i] == b[i];
        }
      }
      assert (a + b)[..|a + b| - 1] == a + c;
      assert (a + b)[|a + b| - 1] == last;
      ExtensionsBodyConcat(a, c);
      assert ExtensionsBody(a + b) == ExtensionsBody(a + c) + ExtensionText(last);
      assert ExtensionsBody(b) == ExtensionsBody(c) + ExtensionText(last);
    }
  }

  /** A placeholder extension adds nothing, wherever it stands. */
  lemma PlaceholderSkipped(a: seq<Extension>, x: Extension, b: seq<Extension>)
    requires AllReady(a) && AllReady(b) && ExtensionReady(x) && IsPlaceholder(x)
    ensures AllReady(a + [x] + b)
    ensures ExtensionsBody(a + [x] + b) == ExtensionsBody(a) + ExtensionsBody(b)
  {
    assert AllReady([x]);
    ExtensionsBodyConcat(a, [x]);
    assert ExtensionsBody([x]) == ExtensionsBody([]) + ExtensionText(x) by {
      assert [x][..0] == [];
    }
    assert ExtensionsBody(a + [x]) == ExtensionsBody(a);
    ExtensionsBodyConcat(a + [x], b);
  }

  /** Any other extension is announced by a `#<name>` line. */
  lemma ExtensionAnnounced(x: Extension)
    requires ExtensionReady(x) && !IsPlaceholder(x)
    ensures StartsWith(ExtensionText(x), "#" + x.name + "\n")
  {
    var t := ExtensionText(x);
    assert t == ("#" + x.name + "\n") + (ExtensionLines(x.require, BaseOffset(x.number)) + "\n");
  }

  /** A value given only as an offset is written as the signed number
      `parse_offset` computes: it carries no prefix, so `remove_prefix`
      leaves it alone. */
  lemma ExtensionValueOffset(e: Elem, number: int)
    requires !Truthy(e.value) && e.bitpos.None? && e.offset.Some?
    ensures RemovePrefix(ExtensionValue(e, BaseOffset(number))) == IntToString(OffsetValue(e, BaseOffset(number)))
  {
    RemovePrefixNumeral(OffsetValue(e, BaseOffset(number)));
  }
}
