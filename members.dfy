/** `parse_structure_member`: the ctypes field a struct or union member
    becomes. */
module Members {
  import opened Wrappers
  import opened Text
  import opened Names
  import opened Registry
  import opened CTypes
  import opened Templates

  /** The number of `*` in the text after the member's `<type>`. */
  function PointerLevel(m: Member): nat {
    if m.typeNode.tail.Some? then Count(m.typeNode.tail.value, '*') else 0
  }

  /** The text after the member's `<name>`, with `' '` standing in for a
      missing or empty one (`name_node.tail or ' '`). */
  function NameTail(m: Member): (t: string)
    ensures t != []
  {
    if Truthy(m.nameTail) then m.nameTail.value else " "
  }

  /** A member is an array when it has an `<enum>` child or its name is
      followed by `[`. */
  predicate IsArray(m: Member) {
    m.lengthEnum.Some? || NameTail(m)[0] == '['
  }

  /** The array length: the enum constant without its prefix, or else the
      text after the name with every bracket removed. */
  function ArrayLength(m: Member): string
    requires IsArray(m)
  {
    if m.lengthEnum.Some? then RemovePrefix(m.lengthEnum.value)
    else ReplaceAll(ReplaceAll(m.nameTail.value, "[", ""), "]", "")
  }

  /** The ctypes type of a member: the mapped `<type>` text, one pointer
      level per `*`, then the array around it. */
  function MemberType(m: Member): string {
    var t := Pointers(MapCtypes(TypeText(m.typeNode.text)), PointerLevel(m));
    if IsArray(m) then FormatArray(t, ArrayLength(m)) else t
  }

  /** The `(name, type)` pair `parse_structure_member` returns. */
  function StructureMember(m: Member): (string, string) {
    (FieldName(m.name), MemberType(m))
  }

  /** `parse_structure_member`, with its loop over the pointer levels. */
  method ParseStructureMember(m: Member) returns (name: string, memberType: string)
    ensures (name, memberType) == StructureMember(m)
  {
    var typeNode := m.typeNode;
    memberType := MapCtypes(TypeText(typeNode.text));
    name := PythonizeFieldName(m.name);
    ghost var base := memberType;
    if typeNode.tail.Some? {
      var level := Count(typeNode.tail.value, '*');
      for i := 0 to level
        invariant memberType == Pointers(base, i)
      {
        memberType := FormatPointer(memberType);
      }
    }
    if m.lengthEnum.Some? || NameTail(m)[0] == '[' {
      var length;
      if m.lengthEnum.None? {
        length := ReplaceAll(ReplaceAll(m.nameTail.value, "[", ""), "]", "");
      } else {
        length := RemovePrefix(m.lengthEnum.value);
      }
      memberType := FormatArray(memberType, length);
    }
  }

  /** The arguments of `define_structure`: one line per member. */
  function MembersText(ms: seq<Member>): string {
    if ms == [] then "" else
      var (n, t) := StructureMember(ms[0]);
      MemberLine(n, t) + MembersText(ms[1..])
  }

  /** A literal array length is written without its brackets. */
  lemma {:induction false} ArrayLengthLiteral(m: Member, n: string)
    requires m.lengthEnum.None? && m.nameTail == Some("[" + n + "]")
    requires '[' !in n && ']' !in n
    ensures IsArray(m) && ArrayLength(m) == n
  {
    var tail := "[" + n + "]";
    assert tail == "[" + (n + "]");
    ReplaceCharConcat("[", n + "]", '[', "");
    ReplaceCharConcat(n, "]", '[', "");
    ReplaceCharAbsent(n, '[', "");
    assert ReplaceAll("]", "[", "") == "]";
    assert ReplaceAll("[", "[", "") == "";
    var once := ReplaceAll(tail, "[", "");
    assert once == n + "]";
    ReplaceCharConcat(n, "]", ']', "");
    ReplaceCharAbsent(n, ']', "");
    assert ReplaceAll("]", "]", "") == "";
    assert ReplaceAll(once, "]", "") == n;
  }

  /** Whatever the text after the name, a literal array length holds no
      bracket. */
  lemma ArrayLengthNoBrackets(m: Member)
    requires IsArray(m) && m.lengthEnum.None?
    ensures '[' !in ArrayLength(m) && ']' !in ArrayLength(m)
  {
    var once := ReplaceAll(m.nameTail.value, "[", "");
    ReplaceCharRemoves(m.nameTail.value, '[', "");
    ReplaceCharRemoves(once, ']', "");
    ReplaceAllNoNewChar(once, "]", "", '[');
  }

  /** An array member with an enum length uses the constant's name without
      its `VK_` prefix. */
  lemma ArrayLengthEnum(m: Member, constant: string)
    requires m.lengthEnum == Some("VK_" + constant)
    ensures IsArray(m) && ArrayLength(m) == constant
  {
    var s := "VK_" + constant;
    assert s[..3] == "VK_";
    assert !StartsWith(s, "Vk") by { assert s[1] == 'K'; }
  }

  /** A member that is neither pointer nor array has the mapped type of its
      `<type>` text; with `n` stars and no special pointer type, it has `n`
      nested `POINTER(...)` around it. */
  lemma MemberTypeNested(m: Member)
    requires !IsArray(m)
    requires MapCtypes(TypeText(m.typeNode.text)) != "None" && MapCtypes(TypeText(m.typeNode.text)) != "c_char"
    ensures var base := MapCtypes(TypeText(m.typeNode.text));
      MemberType(m) == Repeat("POINTER(", PointerLevel(m)) + base + Repeat(")", PointerLevel(m))
  {
    PointersNested(MapCtypes(TypeText(m.typeNode.text)), PointerLevel(m));
  }

  /** A `char` member with one `*` (a C string) has the type `c_char_p`,
      not `POINTER(c_char)`. */
  lemma MemberCharPointer(tail: string, name: string)
    requires Count(tail, '*') == 1
    ensures MemberType(Member(TypeNode("char", Some(tail)), name, None, None)) == "c_char_p"
  {
    var m := Member(TypeNode("char", Some(tail)), name, None, None);
    assert MapCtypes(TypeText("char")) == "c_char" by {
      assert "char" in TYPES_MAP && TYPES_MAP["char"] == "c_char";
    }
    assert Pointers("c_char", 1) == "c_char_p";
    assert !IsArray(m);
  }

  /** `void* pNext` becomes the field `('next', c_void_p)`. */
  lemma StructureMemberNext()
    ensures StructureMember(Member(TypeNode("void", Some("* ")), "pNext", None, None)) == ("next", "c_void_p")
  {
    var m := Member(TypeNode("void", Some("* ")), "pNext", None, None);
    PointerFieldName();
    assert PointerLevel(m) == 1 by {
      assert "* "[1..] == " ";
      assert Count(" ", '*') == 0 by { assert " "[1..] == ""; }
    }
    assert MapCtypes(TypeText("void")) == "None" by {
      assert "void" in TYPES_MAP && TYPES_MAP["void"] == "None";
    }
    assert Pointers("None", 1) == "c_void_p";
    assert !IsArray(m);
  }
}
