/** `parse_command_argument_type` and `parse_commands`: every command's
    ctypes prototype, grouped in families by the handle of its first
    parameter, and the entry point `vkGetInstanceProcAddr` on its own. */
module Commands {
  import opened Wrappers
  import opened Text
  import opened Names
  import opened Registry
  import opened CTypes
  import opened Templates
  import Members

  const COMMANDS_HEADER: string := "\n# FUNCTIONS \n\n"
  const GET_INSTANCE_PROC_ADDR: string := "vkGetInstanceProcAddr"
  const GET_DEVICE_PROC_ADDR: string := "vkGetDeviceProcAddr"
  const LOADER: string := "Loader"
  const INSTANCE: string := "Instance"

  /** The `<type>` children of the parameters that have one, in order. */
  function TypedParams(ps: seq<Param>): (r: seq<TypeNode>)
    ensures |r| <= |ps|
    ensures forall t :: t in r ==> exists p :: p in ps && p.typeNode == Some(t)
    ensures forall i :: 0 <= i < |ps| && ps[i].typeNode.Some? ==> ps[i].typeNode.value in r
    ensures forall i :: 0 <= i < |ps| && ps[i].typeNode.Some? && (forall j :: 0 <= j < i ==> ps[j].typeNode.None?)
              ==> |r| > 0 && r[0] == ps[i].typeNode.value
  {
    if ps == [] then []
    else (if ps[0].typeNode.Some? then [ps[0].typeNode.value] else []) + TypedParams(ps[1..])
  }

  /** The text after a parameter type is indexed at 0, so it must not be
      empty when present. */
  predicate TypeReady(t: TypeNode) {
    t.tail.Some? ==> t.tail.value != ""
  }

  /** `parse_command_argument_type`: at most one pointer level, taken from
      the first character after the type. */
  function ArgumentType(t: TypeNode): (r: string)
    requires TypeReady(t)
    ensures t.tail.Some? && t.tail.value[0] == '*' ==> r == Pointers(MapCtypes(TypeText(t.text)), 1)
    ensures t.tail.Some? && t.tail.value[0] == '*' ==> Pointee(r) == MapCtypes(TypeText(t.text))
    ensures !(t.tail.Some? && t.tail.value[0] == '*') ==> r == MapCtypes(TypeText(t.text))
  {
    var a := MapCtypes(TypeText(t.text));
    if t.tail.Some? && t.tail.value[0] == '*' then FormatPointer(a) else a
  }

  /** Only the first character after the type counts: however many stars
      follow, an argument gets one pointer level, where a struct member with
      the same `<type>` gets one per star. */
  lemma ArgumentTypeOneLevel(text: string, tail: string)
    requires tail != "" && tail[0] == '*'
    ensures ArgumentType(TypeNode(text, Some(tail))) == Pointers(MapCtypes(TypeText(text)), 1)
    ensures ArgumentType(TypeNode(text, Some(tail))) == ArgumentType(TypeNode(text, Some("*")))
  {
  }

  /** A `**` parameter is written as a single pointer, whereas a `**`
      member is a pointer to a pointer. */
  lemma ArgumentDoublePointer(text: string, name: string)
    ensures var base := MapCtypes(TypeText(text));
      ArgumentType(TypeNode(text, Some("**"))) == Pointers(base, 1)
      && Members.MemberType(Member(TypeNode(text, Some("**")), name, None, None)) == Pointers(base, 2)
  {
    assert Count("**", '*') == 2 by {
      assert "**"[1..] == "*";
      assert "*"[1..] == "";
    }
  }

  function ArgumentsText(ts: seq<TypeNode>): string
    requires forall t :: t in ts ==> TypeReady(t)
  {
    if ts == [] then "" else CommandArg(ArgumentType(ts[0])) + ArgumentsText(ts[1..])
  }

  predicate IsGetInstanceProcAddr(c: Command) {
    c.name == GET_INSTANCE_PROC_ADDR
  }

  /** What the source needs of a command: readable argument types, and a
      typed first parameter unless it is the entry point. */
  predicate CommandReady(c: Command) {
    (forall t :: t in TypedParams(c.params) ==> TypeReady(t))
    && (!IsGetInstanceProcAddr(c) ==> |TypedParams(c.params)| > 0)
  }

  predicate AllReady(cmds: seq<Command>) {
    forall i :: 0 <= i < |cmds| ==> CommandReady(cmds[i])
  }

  function ReturnType(c: Command): string {
    MapCtypes(TypeText(c.protoType))
  }

  function Definition(c: Command): string
    requires CommandReady(c)
  {
    CommandDefinition(c.name, ReturnType(c), ArgumentsText(TypedParams(c.params)))
  }

  /** The family of a command: the handle its first parameter has, or
      `Loader` when that is not a handle; `vkGetDeviceProcAddr` is moved to
      `Instance` when its first parameter is a handle. */
  function FamilyKey(c: Command, handles: seq<string>): (k: string)
    requires CommandReady(c) && !IsGetInstanceProcAddr(c)
    ensures k in handles || k == LOADER || k == INSTANCE
  {
    var key := MapCtypes(TypeText(TypedParams(c.params)[0].text));
    if key !in handles then LOADER
    else if c.name == GET_DEVICE_PROC_ADDR then INSTANCE
    else key
  }

  /** The family names in the order their first command appears (the
      insertion order of the `commands_groups` dictionary). */
  function FamilyOrder(cmds: seq<Command>, handles: seq<string>): seq<string>
    requires AllReady(cmds)
  {
    if cmds == [] then []
    else
      var prev := FamilyOrder(cmds[..|cmds| - 1], handles);
      var c := cmds[|cmds| - 1];
      if IsGetInstanceProcAddr(c) || FamilyKey(c, handles) in prev then prev
      else prev + [FamilyKey(c, handles)]
  }

  /** The commands of one family, in document order. */
  function Family(cmds: seq<Command>, handles: seq<string>, k: string): (r: seq<Command>)
    requires AllReady(cmds)
    ensures forall c :: c in r ==> CommandReady(c)
  {
    if cmds == [] then []
    else
      var c := cmds[|cmds| - 1];
      Family(cmds[..|cmds| - 1], handles, k)
      + (if !IsGetInstanceProcAddr(c) && FamilyKey(c, handles) == k then [c] else [])
  }

  /** A family holds only commands of the list, other than the entry
      point, whose key is the family's. */
  lemma {:induction false} FamilyMembers(cmds: seq<Command>, handles: seq<string>, k: string)
    requires AllReady(cmds)
    ensures forall c :: c in Family(cmds, handles, k) ==>
      c in cmds && !IsGetInstanceProcAddr(c) && FamilyKey(c, handles) == k
    decreases |cmds|
  {
    if cmds != [] {
      var init := cmds[..|cmds| - 1];
      var last := cmds[|cmds| - 1];
      AllReadyPrefix(cmds, |cmds| - 1);
      FamilyMembers(init, handles, k);
      forall c | c in Family(cmds, handles, k)
        ensures c in cmds && !IsGetInstanceProcAddr(c) && FamilyKey(c, handles) == k
      {
        if c in Family(init, handles, k) {
          assert c in init;
        } else {
          assert c == last;
        }
      }
    }
  }

  function Definitions(cs: seq<Command>): (r: seq<string>)
    requires forall c :: c in cs ==> CommandReady(c)
    ensures |r| == |cs|
  {
    if cs == [] then [] else Definitions(cs[..|cs| - 1]) + [Definition(cs[|cs| - 1])]
  }

  function FamilyText(cmds: seq<Command>, handles: seq<string>, k: string): string
    requires AllReady(cmds)
  {
    CommandFamily(k, Concat(Definitions(Family(cmds, handles, k))))
  }

  function FamiliesText(keys: seq<string>, cmds: seq<Command>, handles: seq<string>): string
    requires AllReady(cmds)
  {
    if keys == [] then ""
    else FamiliesText(keys[..|keys| - 1], cmds, handles) + FamilyText(cmds, handles, keys[|keys| - 1])
  }

  /** The entry point the source keeps: the last `vkGetInstanceProcAddr`. */
  function LastEntryPoint(cmds: seq<Command>): (r: Option<Command>)
    ensures r.Some? ==> r.value in cmds && IsGetInstanceProcAddr(r.value)
    ensures r.None? <==> forall i :: 0 <= i < |cmds| ==> !IsGetInstanceProcAddr(cmds[i])
  {
    if cmds == [] then None
    else if IsGetInstanceProcAddr(cmds[|cmds| - 1]) then Some(cmds[|cmds| - 1])
    else LastEntryPoint(cmds[..|cmds| - 1])
  }

  function EntryPointText(c: Command): string
    requires CommandReady(c)
  {
    GetInstanceProcAddrBlock(RemovePrefix(c.name), ReturnType(c), ArgumentsText(TypedParams(c.params)))
  }

  /** Everything `parse_commands` writes. */
  function CommandsText(cmds: seq<Command>, handles: seq<string>): string
    requires AllReady(cmds) && LastEntryPoint(cmds).Some?
  {
    COMMANDS_HEADER + FamiliesText(FamilyOrder(cmds, handles), cmds, handles) + EntryPointText(LastEntryPoint(cmds).value)
  }

  lemma AllReadyPrefix(cmds: seq<Command>, n: nat)
    requires AllReady(cmds) && n <= |cmds|
    ensures AllReady(cmds[..n])
  {
    forall i | 0 <= i < n ensures CommandReady(cmds[..n][i]) {
      assert cmds[..n][i] == cmds[i];
    }
  }

  /** A family is listed exactly when some command other than the entry
      point belongs to it. */
  lemma FamilyOrderMembers(cmds: seq<Command>, handles: seq<string>, k: string)
    requires AllReady(cmds)
    ensures k in FamilyOrder(cmds, handles) <==>
      exists i :: 0 <= i < |cmds| && !IsGetInstanceProcAddr(cmds[i]) && FamilyKey(cmds[i], handles) == k
  {
    if k in FamilyOrder(cmds, handles) {
      var i := FamilyOrderWitness(cmds, handles, k);
    }
    if exists i :: 0 <= i < |cmds| && !IsGetInstanceProcAddr(cmds[i]) && FamilyKey(cmds[i], handles) == k {
      var i :| 0 <= i < |cmds| && !IsGetInstanceProcAddr(cmds[i]) && FamilyKey(cmds[i], handles) == k;
      FamilyOrderHasKey(cmds, handles, i);
    }
  }

  /** Every key in the order is the key of some command. */
  lemma {:induction false} FamilyOrderWitness(cmds: seq<Command>, handles: seq<string>, k: string) returns (i: nat)
    requires AllReady(cmds) && k in FamilyOrder(cmds, handles)
    ensures i < |cmds| && !IsGetInstanceProcAddr(cmds[i]) && FamilyKey(cmds[i], handles) == k
    decreases |cmds|
  {
    var n := |cmds| - 1;
    FamilyOrderStep(cmds, handles, n);
    assert cmds[..n + 1] == cmds;
    if k in FamilyOrder(cmds[..n], handles) {
      i := FamilyOrderWitness(cmds[..n], handles, k);
      assert cmds[..n][i] == cmds[i];
    } else {
      i := n;
    }
  }

  /** The key of every command other than the entry point is in the
      order. */
  lemma {:induction false} FamilyOrderHasKey(cmds: seq<Command>, handles: seq<string>, i: nat)
    requires AllReady(cmds) && i < |cmds| && !IsGetInstanceProcAddr(cmds[i])
    ensures FamilyKey(cmds[i], handles) in FamilyOrder(cmds, handles)
    decreases |cmds|
  {
    var n := |cmds| - 1;
    FamilyOrderStep(cmds, handles, n);
    assert cmds[..n + 1] == cmds;
    if i < n {
      assert cmds[..n][i] == cmds[i];
      FamilyOrderHasKey(cmds[..n], handles, i);
    }
  }

  predicate Distinct(s: seq<string>) {
    forall i, j :: 0 <= i < j < |s| ==> s[i] != s[j]
  }

  /** No family is written twice. */
  lemma {:induction false} FamilyOrderDistinct(cmds: seq<Command>, handles: seq<string>)
    requires AllReady(cmds)
    ensures Distinct(FamilyOrder(cmds, handles))
    decreases |cmds|
  {
    if cmds != [] {
      var init := cmds[..|cmds| - 1];
      AllReadyPrefix(cmds, |cmds| - 1);
      FamilyOrderDistinct(init, handles);
      var prev := FamilyOrder(init, handles);
      var ks := FamilyOrder(cmds, handles);
      var c := cmds[|cmds| - 1];
      if !IsGetInstanceProcAddr(c) && FamilyKey(c, handles) !in prev {
        var key := FamilyKey(c, handles);
        assert ks == prev + [key];
        forall i, j | 0 <= i < j < |ks| ensures ks[i] != ks[j] {
          assert Distinct(prev);
          assert ks[i] == prev[i];
          if j < |prev| {
            assert ks[j] == prev[j];
          } else {
            assert prev[i] in prev;
          }
        }
      } else {
        assert ks == prev;
      }
    }
  }

  /** A listed family has at least one command and an unlisted one none:
      no `...Functions` tuple is empty and no command is dropped. */
  lemma {:induction false} FamilyNonEmpty(cmds: seq<Command>, handles: seq<string>, k: string)
    requires AllReady(cmds)
    ensures |Family(cmds, handles, k)| > 0 <==> k in FamilyOrder(cmds, handles)
    decreases |cmds|
  {
    if cmds != [] {
      AllReadyPrefix(cmds, |cmds| - 1);
      FamilyNonEmpty(cmds[..|cmds| - 1], handles, k);
    }
  }

  /** Every command other than the entry point is in the family of its
      key. */
  lemma {:induction false} FamilyComplete(cmds: seq<Command>, handles: seq<string>, i: nat)
    requires AllReady(cmds) && i < |cmds| && !IsGetInstanceProcAddr(cmds[i])
    ensures cmds[i] in Family(cmds, handles, FamilyKey(cmds[i], handles))
    decreases |cmds|
  {
    if i < |cmds| - 1 {
      var init := cmds[..|cmds| - 1];
      AllReadyPrefix(cmds, |cmds| - 1);
      assert init[i] == cmds[i];
      FamilyComplete(init, handles, i);
    }
  }

  /** What one more command changes in the state `parse_commands` keeps:
      the family order, each family's definitions, and the entry point. */
  lemma FamilyOrderStep(cmds: seq<Command>, handles: seq<string>, i: nat)
    requires AllReady(cmds) && i < |cmds|
    ensures AllReady(cmds[..i]) && AllReady(cmds[..i + 1])
    ensures FamilyOrder(cmds[..i + 1], handles) ==
      if IsGetInstanceProcAddr(cmds[i]) || FamilyKey(cmds[i], handles) in FamilyOrder(cmds[..i], handles)
      then FamilyOrder(cmds[..i], handles)
      else FamilyOrder(cmds[..i], handles) + [FamilyKey(cmds[i], handles)]
  {
    AllReadyPrefix(cmds, i);
    AllReadyPrefix(cmds, i + 1);
    assert cmds[..i + 1][..i] == cmds[..i];
    assert cmds[..i + 1][i] == cmds[i];
  }

  lemma FamilyStep(cmds: seq<Command>, handles: seq<string>, i: nat, k: string)
    requires AllReady(cmds) && i < |cmds|
    ensures AllReady(cmds[..i]) && AllReady(cmds[..i + 1])
    ensures Definitions(Family(cmds[..i + 1], handles, k)) ==
      if !IsGetInstanceProcAddr(cmds[i]) && FamilyKey(cmds[i], handles) == k
      then Definitions(Family(cmds[..i], handles, k)) + [Definition(cmds[i])]
      else Definitions(Family(cmds[..i], handles, k))
  {
    AllReadyPrefix(cmds, i);
    AllReadyPrefix(cmds, i + 1);
    assert cmds[..i + 1][..i] == cmds[..i];
    assert cmds[..i + 1][i] == cmds[i];
    var f := Family(cmds[..i], handles, k);
    var c := cmds[i];
    if !IsGetInstanceProcAddr(c) && FamilyKey(c, handles) == k {
      assert Family(cmds[..i + 1], handles, k) == f + [c];
      assert (f + [c])[..|f|] == f;
      assert Definitions(f + [c]) == Definitions(f) + [Definition(c)];
    } else {
      assert Family(cmds[..i + 1], handles, k) == f;
    }
  }

  lemma LastEntryPointStep(cmds: seq<Command>, i: nat)
    requires i < |cmds|
    ensures LastEntryPoint(cmds[..i + 1]) ==
      if IsGetInstanceProcAddr(cmds[i]) then Some(cmds[i]) else LastEntryPoint(cmds[..i])
  {
    assert cmds[..i + 1][..i] == cmds[..i];
    assert cmds[..i + 1][i] == cmds[i];
  }

  lemma FamiliesTextStep(keys: seq<string>, cmds: seq<Command>, handles: seq<string>, j: nat)
    requires AllReady(cmds) && j < |keys|
    ensures FamiliesText(keys[..j + 1], cmds, handles) == FamiliesText(keys[..j], cmds, handles) + FamilyText(cmds, handles, keys[j])
  {
    assert keys[..j + 1][..j] == keys[..j];
    assert keys[..j + 1][j] == keys[j];
  }

  /** The state of the grouping loop after the commands `cmds`: `keys`
      lists the families in the order first seen, and `groups` maps each of
      them to its definitions. */
  ghost predicate Grouped(cmds: seq<Command>, handles: seq<string>, keys: seq<string>, groups: map<string, seq<string>>)
    requires AllReady(cmds)
  {
    keys == FamilyOrder(cmds, handles)
    && (forall k :: k in groups <==> k in keys)
    && forall k :: k in groups ==> groups[k] == Definitions(Family(cmds, handles, k))
  }

  /** The entry point leaves the groups as they are. */
  lemma GroupedSkip(cmds: seq<Command>, handles: seq<string>, i: nat, keys: seq<string>, groups: map<string, seq<string>>)
    requires AllReady(cmds) && i < |cmds| && IsGetInstanceProcAddr(cmds[i])
    requires AllReady(cmds[..i]) && Grouped(cmds[..i], handles, keys, groups)
    ensures AllReady(cmds[..i + 1]) && Grouped(cmds[..i + 1], handles, keys, groups)
  {
    FamilyOrderStep(cmds, handles, i);
    forall k | k in groups ensures groups[k] == Definitions(Family(cmds[..i + 1], handles, k)) {
      FamilyStep(cmds, handles, i, k);
    }
  }

  /** A command of a family already seen is appended to its list. */
  lemma GroupedAppend(cmds: seq<Command>, handles: seq<string>, i: nat, keys: seq<string>, groups: map<string, seq<string>>)
    requires AllReady(cmds) && i < |cmds| && !IsGetInstanceProcAddr(cmds[i])
    requires AllReady(cmds[..i]) && Grouped(cmds[..i], handles, keys, groups)
    requires FamilyKey(cmds[i], handles) in groups
    ensures AllReady(cmds[..i + 1])
    ensures var key := FamilyKey(cmds[i], handles);
      Grouped(cmds[..i + 1], handles, keys, groups[key := groups[key] + [Definition(cmds[i])]])
  {
    FamilyOrderStep(cmds, handles, i);
    var key := FamilyKey(cmds[i], handles);
    var after := groups[key := groups[key] + [Definition(cmds[i])]];
    assert key in keys;
    assert FamilyOrder(cmds[..i + 1], handles) == keys;
    assert after.Keys == groups.Keys;
    AppendedDefinitions(cmds, handles, i, groups, after);
    GroupedIntro(cmds[..i + 1], handles, keys, after);
  }

  lemma GroupedIntro(cmds: seq<Command>, handles: seq<string>, keys: seq<string>, groups: map<string, seq<string>>)
    requires AllReady(cmds) && keys == FamilyOrder(cmds, handles)
    requires forall k :: k in groups <==> k in keys
    requires forall k :: k in groups ==> groups[k] == Definitions(Family(cmds, handles, k))
    ensures Grouped(cmds, handles, keys, groups)
  {
  }

  lemma AppendedDefinitions(cmds: seq<Command>, handles: seq<string>, i: nat,
                            groups: map<string, seq<string>>, after: map<string, seq<string>>)
    requires AllReady(cmds) && i < |cmds| && !IsGetInstanceProcAddr(cmds[i]) && AllReady(cmds[..i])
    requires forall k :: k in groups ==> groups[k] == Definitions(Family(cmds[..i], handles, k))
    requires FamilyKey(cmds[i], handles) in groups
    requires after == groups[FamilyKey(cmds[i], handles) := groups[FamilyKey(cmds[i], handles)] + [Definition(cmds[i])]]
    ensures AllReady(cmds[..i + 1])
    ensures forall k :: k in after ==> after[k] == Definitions(Family(cmds[..i + 1], handles, k))
  {
    AllReadyPrefix(cmds, i + 1);
    forall k | k in after ensures after[k] == Definitions(Family(cmds[..i + 1], handles, k)) {
      FamilyStep(cmds, handles, i, k);
    }
  }

  /** The first command of a family creates its list and records its
      key. */
  lemma GroupedCreate(cmds: seq<Command>, handles: seq<string>, i: nat, keys: seq<string>, groups: map<string, seq<string>>)
    requires AllReady(cmds) && i < |cmds| && !IsGetInstanceProcAddr(cmds[i])
    requires AllReady(cmds[..i]) && Grouped(cmds[..i], handles, keys, groups)
    requires FamilyKey(cmds[i], handles) !in groups
    ensures AllReady(cmds[..i + 1])
    ensures var key := FamilyKey(cmds[i], handles);
      Grouped(cmds[..i + 1], handles, keys + [key], groups[key := [Definition(cmds[i])]])
  {
    FamilyOrderStep(cmds, handles, i);
    var key := FamilyKey(cmds[i], handles);
    var after := groups[key := [Definition(cmds[i])]];
    assert FamilyOrder(cmds[..i + 1], handles) == keys + [key];
    forall k | k in after ensures after[k] == Definitions(Family(cmds[..i + 1], handles, k)) {
      FamilyStep(cmds, handles, i, k);
      if k == key {
        FamilyNonEmpty(cmds[..i], handles, k);
      }
    }
  }
}
