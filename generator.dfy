/** The generator's global state and the stages of the export that write
    the handles, enums, structures, commands and extensions. */
module Generator {
  import opened Wrappers
  import opened Text
  import opened Names
  import opened Registry
  import opened CTypes
  import opened Templates
  import opened Members
  import opened Handles
  import opened Enums
  import opened Structures
  import opened Extensions
  import Commands

  /** The identifiers `DEFINED_IDENTIFIERS` starts with: the ctypes names
      and the window-system types the initialization code defines. */
  const SEED_IDENTIFIERS: seq<string> := [
    "HINSTANCE", "HWND", "None", "c_void_p", "c_float", "c_uint8", "c_cuint",
    "c_uint64", "c_int", "c_uint", "c_size_t", "c_char", "c_char_p", "xcb_connection_t",
    "xcb_window_t", "xcb_visualid_t", "MirConnection", "MirSurface", "wl_display",
    "wl_surface", "Display", "Window", "VisualID", "ANativeWindow"]

  /** Every ctypes name of `TYPES_MAP` is defined from the start, so a
      member of a C base type never triggers a lookup. */
  lemma TypesMapSeeded()
    ensures forall k :: k in TYPES_MAP ==> TYPES_MAP[k] in SEED_IDENTIFIERS
  {
  }

  /** The loop of `parse_commands` over the commands: the commands other
      than `vkGetInstanceProcAddr` are collected in `groups`, one list of
      definitions per family, with `keys` recording the order in which
      families are first seen (the insertion order of `commands_groups`);
      `entry` keeps what the last `vkGetInstanceProcAddr` needs. */
  method GroupCommands(cmds: seq<Command>, handles: seq<string>)
    returns (keys: seq<string>, groups: map<string, seq<string>>, entry: Option<(string, string, string)>)
    requires Commands.AllReady(cmds)
    ensures keys == Commands.FamilyOrder(cmds, handles)
    ensures forall k :: k in groups <==> k in keys
    ensures forall k :: k in groups ==> groups[k] == Commands.Definitions(Commands.Family(cmds, handles, k))
    ensures entry.Some? <==> Commands.LastEntryPoint(cmds).Some?
    ensures entry.Some? ==> var c := Commands.LastEntryPoint(cmds).value;
      entry.value == (RemovePrefix(c.name), Commands.ReturnType(c), Commands.ArgumentsText(Commands.TypedParams(c.params)))
  {
    entry := None;
    keys := [];
    groups := map[];
    for i := 0 to |cmds|
      invariant Commands.AllReady(cmds[..i])
      invariant Commands.Grouped(cmds[..i], handles, keys, groups)
      invariant entry.Some? <==> Commands.LastEntryPoint(cmds[..i]).Some?
      invariant entry.Some? ==> var c := Commands.LastEntryPoint(cmds[..i]).value;
        entry.value == (RemovePrefix(c.name), Commands.ReturnType(c), Commands.ArgumentsText(Commands.TypedParams(c.params)))
    {
      var c := cmds[i];
      Commands.LastEntryPointStep(cmds, i);
      var commandType := MapCtypes(TypeText(c.protoType));
      var typed := Commands.TypedParams(c.params);
      var params := Commands.ArgumentsText(typed);
      if c.name == Commands.GET_INSTANCE_PROC_ADDR {
        Commands.GroupedSkip(cmds, handles, i, keys, groups);
        entry := Some((RemovePrefix(c.name), commandType, params));
      } else {
        var key := MapCtypes(TypeText(typed[0].text));
        var definition := CommandDefinition(c.name, commandType, params);
        if key !in handles {
          key := Commands.LOADER;
        } else if c.name == Commands.GET_DEVICE_PROC_ADDR {
          key := Commands.INSTANCE;
        }
        assert key == Commands.FamilyKey(c, handles);
        assert definition == Commands.Definition(c);
        if key !in groups {
          Commands.GroupedCreate(cmds, handles, i, keys, groups);
          keys := keys + [key];
          groups := groups[key := [definition]];
        } else {
          Commands.GroupedAppend(cmds, handles, i, keys, groups);
          groups := groups[key := groups[key] + [definition]];
        }
      }
    }
    assert cmds[..|cmds|] == cmds;
  }

  /** The family written for the `j`-th key is that key's family text. */
  lemma FamilyWritten(cmds: seq<Command>, handles: seq<string>, keys: seq<string>,
                      groups: map<string, seq<string>>, j: nat)
    requires Commands.AllReady(cmds) && j < |keys|
    requires forall k :: k in groups <==> k in keys
    requires forall k :: k in groups ==> groups[k] == Commands.Definitions(Commands.Family(cmds, handles, k))
    ensures keys[j] in groups
    ensures CommandFamily(keys[j], Concat(groups[keys[j]])) == Commands.FamilyText(cmds, handles, keys[j])
    ensures Commands.FamiliesText(keys[..j + 1], cmds, handles)
      == Commands.FamiliesText(keys[..j], cmds, handles) + Commands.FamilyText(cmds, handles, keys[j])
  {
    Commands.FamiliesTextStep(keys, cmds, handles, j);
  }

  /** After the loop the families are all written, and the entry point
      block is the text of the last `vkGetInstanceProcAddr`. */
  lemma EntryPointWritten(cmds: seq<Command>, handles: seq<string>, keys: seq<string>,
                          entry: Option<(string, string, string)>)
    requires Commands.AllReady(cmds) && Commands.LastEntryPoint(cmds).Some?
    requires keys == Commands.FamilyOrder(cmds, handles)
    requires entry.Some? <==> Commands.LastEntryPoint(cmds).Some?
    requires entry.Some? ==> var c := Commands.LastEntryPoint(cmds).value;
      entry.value == (RemovePrefix(c.name), Commands.ReturnType(c), Commands.ArgumentsText(Commands.TypedParams(c.params)))
    ensures keys[..|keys|] == keys && entry.Some?
    ensures GetInstanceProcAddrBlock(entry.value.0, entry.value.1, entry.value.2)
      == Commands.EntryPointText(Commands.LastEntryPoint(cmds).value)
    ensures Commands.COMMANDS_HEADER + Commands.FamiliesText(keys, cmds, handles)
      + Commands.EntryPointText(Commands.LastEntryPoint(cmds).value) == Commands.CommandsText(cmds, handles)
  {
  }

  /** The module-level state of the script: the text written to the output
      file, `DEFINED_IDENTIFIERS`, `HANDLE_NAMES` and the type names
      reported as not found. */
  class Generator {
    var output: string
    var defined: seq<string>
    var handleNames: seq<string>
    var notFound: seq<string>

    constructor ()
      ensures output == "" && defined == SEED_IDENTIFIERS && handleNames == [] && notFound == []
    {
      output := "";
      defined := SEED_IDENTIFIERS;
      handleNames := [];
      notFound := [];
    }

    /** `parse_handles`: one line per handle; each name becomes a handle
        name and a defined identifier. */
    method ParseHandles(hs: seq<Handle>)
      modifies this
      ensures output == old(output) + HandlesText(hs)
      ensures handleNames == old(handleNames) + HandleNames(hs)
      ensures defined == old(defined) + HandleNames(hs)
      ensures notFound == old(notFound)
    {
      output := output + HANDLES_HEADER;
      ghost var start := output;
      HandleTypesMapped();
      var sizeType, wideType := TYPES_MAP["size_t"], TYPES_MAP["uint64_t"];
      for i := 0 to |hs|
        invariant output == start + HandleLines(hs[..i])
        invariant handleNames == old(handleNames) + HandleNames(hs[..i])
        invariant defined == old(defined) + HandleNames(hs[..i])
        invariant notFound == old(notFound)
      {
        var h := hs[i];
        var handleType := if h.typeText == "VK_DEFINE_HANDLE" then sizeType else wideType;
        assert handleType == HandleType(h);
        var name := RemovePrefix(h.name);
        HandlesStep(hs, i);
        ConcatAssoc(start, HandleLines(hs[..i]), HandleLine(name, handleType));
        ConcatAssoc(old(handleNames), HandleNames(hs[..i]), [name]);
        ConcatAssoc(old(defined), HandleNames(hs[..i]), [name]);
        output := output + HandleLine(name, handleType);
        handleNames := handleNames + [name];
        defined := defined + [name];
      }
      assert hs[..|hs|] == hs;
      ConcatAssoc(old(output), HANDLES_HEADER, HandleLines(hs));
      ConcatAssoc(old(output), HANDLES_HEADER + HandleLines(hs), "\n");
      output := output + "\n";
    }

    /** `parse_enums`: one block per `<enums>` element; each block name
        becomes a defined identifier. */
    method ParseEnums(gs: seq<EnumsGroup>)
      requires Enums.AllReady(gs)
      modifies this
      ensures output == old(output) + EnumsText(gs)
      ensures defined == old(defined) + EnumsNames(gs)
      ensures handleNames == old(handleNames) && notFound == old(notFound)
    {
      output := output + ENUMS_HEADER;
      ghost var start := output;
      for i := 0 to |gs|
        invariant output == start + EnumsBody(gs[..i])
        invariant defined == old(defined) + EnumsNames(gs[..i])
        invariant handleNames == old(handleNames) && notFound == old(notFound)
      {
        var g := gs[i];
        var name := RemovePrefix(ReplaceAll(g.name, " ", "_"));
        var lines := EnumLines(g.children);
        assert gs[..i + 1][..i] == gs[..i];
        assert Enums.AllReady(gs[..i + 1]) && Enums.AllReady(gs[..i]);
        ConcatAssoc(start, EnumsBody(gs[..i]), EnumBlock(name, lines));
        ConcatAssoc(old(defined), EnumsNames(gs[..i]), [name]);
        output := output + EnumBlock(name, lines);
        defined := defined + [name];
      }
      assert gs[..|gs|] == gs;
      ConcatAssoc(old(output), ENUMS_HEADER, EnumsBody(gs));
    }

    /** `parse_struct_or_enum`: does what `ResolveDecl` describes. `written`
        lists, for the proofs, the blocks written so far; `written'` adds
        those this call writes. */
    method Resolve(root: Root, d: Decl, isStruct: bool, ghost written: seq<Emission>)
      returns (ghost written': seq<Emission>)
      requires RootReady(root) && d in Decls(root)
      modifies this
      decreases |DeclNames(root) - Elems(defined)|
      ensures Progress(output, defined, notFound, written')
        == ResolveDecl(root, d, isStruct, Progress(old(output), old(defined), old(notFound), written))
      ensures handleNames == old(handleNames)
    {
      var name := RemovePrefix(d.name);
      if name in defined {
        written' := written;
        return;
      }
      ghost var before := defined;
      defined := defined + [name];
      ghost var q := Progress(output, defined, notFound, written);
      ghost var w := written;
      var members := d.members;
      for i := 0 to |members|
        invariant ResolveMembers(root, members[i..], Progress(output, defined, notFound, w))
          == ResolveMembers(root, members, q)
        invariant q.defined <= defined && handleNames == old(handleNames)
      {
        ghost var cur := Progress(output, defined, notFound, w);
        MembersUnfold(root, members, i, cur);
        var t := MapCtypes(TypeText(members[i].typeNode.text));
        if t !in defined {
          var s := FindDecl(root.structs, "Vk" + t);
          var u := FindDecl(root.unions, "Vk" + t);
          if s.None? && u.None? {
            notFound := notFound + [t];
          } else {
            var dep: Decl;
            if s.Some? && s.value.members != [] {
              dep := s.value;
            } else {
              assert Selectable(root, Dependency(members[i]));
              dep := u.value;
            }
            assert dep == Chosen(root, t);
            MeasureDrops(root, d, before, q.defined, defined);
            w := Resolve(root, dep, u.None?, w);
          }
        }
        assert Progress(output, defined, notFound, w) == ResolveMember(root, members[i], cur);
      }
      output := output + StructureBlock(name, MembersText(members), isStruct);
      written' := w + [Emission(name, d, isStruct)];
    }

    /** `parse_structures_and_unions`: does what `StructuresStage`
        describes, starting with no block written; `StageFacts` states what
        that achieves. */
    method ParseStructuresAndUnions(root: Root) returns (ghost written: seq<Emission>)
      requires RootReady(root)
      modifies this
      ensures Progress(output, defined, notFound, written)
        == StructuresStage(root, Progress(old(output), old(defined), old(notFound), []))
      ensures handleNames == old(handleNames)
    {
      output := output + STRUCTURES_HEADER;
      ghost var p0 := Progress(output, defined, notFound, []);
      written := [];
      for i := 0 to |root.structs|
        invariant ResolveAll(root, root.structs[i..], Progress(output, defined, notFound, written))
          == ResolveAll(root, root.structs, p0)
        invariant handleNames == old(handleNames)
      {
        assert root.structs[i..][1..] == root.structs[i + 1..];
        written := Resolve(root, root.structs[i], true, written);
      }
      ghost var p1 := Progress(output, defined, notFound, written);
      for i := 0 to |root.unions|
        invariant ResolveAll(root, root.unions[i..], Progress(output, defined, notFound, written))
          == ResolveAll(root, root.unions, p1)
        invariant handleNames == old(handleNames)
      {
        assert root.unions[i..][1..] == root.unions[i + 1..];
        written := Resolve(root, root.unions[i], true, written);
      }
    }
 
    /** `parse_commands`: the families, in the order they were first
        seen, then the entry point. */
    method ParseCommands(cmds: seq<Command>)
      requires Commands.AllReady(cmds) && Commands.LastEntryPoint(cmds).Some?
      modifies this
      ensures output == old(output) + Commands.CommandsText(cmds, handleNames)
      ensures defined == old(defined) && handleNames == old(handleNames) && notFound == old(notFound)
    {
      var handles := handleNames;
      output := output + Commands.COMMANDS_HEADER;
      var keys, groups, entry := GroupCommands(cmds, handles);
      ghost var start := output;
      for j := 0 to |keys|
        invariant output == start + Commands.FamiliesText(keys[..j], cmds, handles)
        invariant defined == old(defined) && handleNames == handles && notFound == old(notFound)
      {
        var k := keys[j];
        FamilyWritten(cmds, handles, keys, groups, j);
        ConcatAssoc(start, Commands.FamiliesText(keys[..j], cmds, handles), CommandFamily(k, Concat(groups[k])));
        output := output + CommandFamily(k, Concat(groups[k]));
      }
      EntryPointWritten(cmds, handles, keys, entry);
      var (name, returnType, args) := entry.value;
      ConcatAssoc(old(output), Commands.COMMANDS_HEADER, Commands.FamiliesText(keys, cmds, handles));
      ConcatAssoc(old(output), Commands.COMMANDS_HEADER + Commands.FamiliesText(keys, cmds, handles),
                  GetInstanceProcAddrBlock(name, returnType, args));
      output := output + GetInstanceProcAddrBlock(name, returnType, args);
    }

    /** `parse_extensions`: the block of each extension that is not a
        placeholder, in document order. */
    method ParseExtensions(xs: seq<Extension>)
      requires Extensions.AllReady(xs)
      modifies this
      ensures output == old(output) + ExtensionsText(xs)
      ensures defined == old(defined) && handleNames == old(handleNames) && notFound == old(notFound)
    {
      output := output + EXTENSIONS_HEADER;
      ghost var start := output;
      for i := 0 to |xs|
        invariant Extensions.AllReady(xs[..i])
        invariant output == start + ExtensionsBody(xs[..i])
        invariant defined == old(defined) && handleNames == old(handleNames) && notFound == old(notFound)
      {
        var x := xs[i];
        ExtensionsBodyStep(xs, i);
        if FirstEnum(x.require).value.value != Some("0") {
          var offset := 1000000000 + (x.number - 1) * 1000;
          var lines := ExtensionLines(x.require, offset);
          assert ExtensionText(x) == ExtensionBlock(x.name, lines);
          ConcatAssoc(start, ExtensionsBody(xs[..i]), ExtensionBlock(x.name, lines));
          output := output + ExtensionBlock(x.name, lines);
        }
      }
      assert xs[..|xs|] == xs;
      ConcatAssoc(old(output), EXTENSIONS_HEADER, ExtensionsBody(xs));
    }
  }
}
