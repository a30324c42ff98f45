/** The parts of the Vulkan registry (`vk.xml`) the generator reads, as
    values. Each datatype is one kind of XML element; a field is an
    attribute, the text of a child element, or the text that follows a
    child element (ElementTree's `tail`). */
module Registry {
  import opened Wrappers

  /** A `<type>` child: its text, and the text after it (`*`, `**`,
      `* const*`, ...), if any. */
  datatype TypeNode = TypeNode(text: string, tail: Option<string>)

  /** A struct or union `<member>`: its `<type>`, its `<name>` with the text
      after it (`[4]` for an array with a literal length), and the text of
      its `<enum>` child, present when the array length is a constant. */
  datatype Member = Member(typeNode: TypeNode, name: string, nameTail: Option<string>, lengthEnum: Option<string>)

  /** A `<type category="struct">` or `<type category="union">`. */
  datatype Decl = Decl(name: string, members: seq<Member>)

  /** A `<type category="handle">`: the text of its `<type>` child
      (`VK_DEFINE_HANDLE` or `VK_DEFINE_NON_DISPATCHABLE_HANDLE`) and of its
      `<name>` child. */
  datatype Handle = Handle(typeText: string, name: string)

  /** A child of `<enums>` or `<require>`, with the attributes the generator
      reads. The decimal attribute `offset` is given already as a number. */
  datatype Elem = Elem(
    tag: string,
    name: string,
    value: Option<string>,
    bitpos: Option<string>,
    offset: Option<int>,
    dir: Option<string>)

  /** An `<enums>` block: its `name` attribute and its children in
      document order. */
  datatype EnumsGroup = EnumsGroup(name: string, children: seq<Elem>)

  /** A command `<param>`; some have no `<type>` child. */
  datatype Param = Param(typeNode: Option<TypeNode>)

  /** A `<command>`: the text of the `<type>` and `<name>` of its `<proto>`,
      and its parameters. */
  datatype Command = Command(protoType: string, name: string, params: seq<Param>)

  /** An `<extension>`: its `name`, its decimal `number` (given as a number)
      and the children of its `<require>` block. */
  datatype Extension = Extension(name: string, number: int, require: seq<Elem>)

  /** The document root, each collection in document order. */
  datatype Root = Root(
    handles: seq<Handle>,
    enums: seq<EnumsGroup>,
    structs: seq<Decl>,
    unions: seq<Decl>,
    commands: seq<Command>,
    extensions: seq<Extension>)

  /** Python truthiness of an attribute: present and not empty. */
  predicate Truthy(a: Option<string>) {
    a.Some? && a.value != ""
  }

  /** `first(s for s in decls if s.get('name') == name)`. */
  function FindDecl(decls: seq<Decl>, name: string): (r: Option<Decl>)
    ensures r.Some? ==> r.value in decls && r.value.name == name
    ensures r.None? <==> forall i :: 0 <= i < |decls| ==> decls[i].name != name
    ensures r.Some? ==> exists i :: 0 <= i < |decls| && decls[i] == r.value
                                   && forall j :: 0 <= j < i ==> decls[j].name != name
  {
    if decls == [] then None
    else if decls[0].name == name then Some(decls[0])
    else
      var r := FindDecl(decls[1..], name);
      if r.Some? then
        var i :| 0 <= i < |decls[1..]| && decls[1..][i] == r.value
                 && forall j :: 0 <= j < i ==> decls[1..][j].name != name;
        assert decls[i + 1] == r.value;
        assert forall j :: 0 <= j < i + 1 ==> decls[j].name != name by {
          forall j | 0 <= j < i + 1 ensures decls[j].name != name {
            if j > 0 { assert decls[j] == decls[1..][j - 1]; }
          }
        }
        r
      else r
  }

  /** `require.find('enum')`: the first child tagged `enum`. */
  function FirstEnum(children: seq<Elem>): (r: Option<Elem>)
    ensures r.Some? ==> r.value in children && r.value.tag == "enum"
    ensures r.None? <==> forall i :: 0 <= i < |children| ==> children[i].tag != "enum"
    ensures r.Some? ==> exists i :: 0 <= i < |children| && children[i] == r.value
                                   && forall j :: 0 <= j < i ==> children[j].tag != "enum"
  {
    if children == [] then None
    else if children[0].tag == "enum" then Some(children[0])
    else
      var r := FirstEnum(children[1..]);
      if r.Some? then
        var i :| 0 <= i < |children[1..]| && children[1..][i] == r.value
                 && forall j :: 0 <= j < i ==> children[1..][j].tag != "enum";
        assert children[i + 1] == r.value;
        assert forall j :: 0 <= j < i + 1 ==> children[j].tag != "enum" by {
          forall j | 0 <= j < i + 1 ensures children[j].tag != "enum" {
            if j > 0 { assert children[j] == children[1..][j - 1]; }
          }
        }
        r
      else r
  }
}
