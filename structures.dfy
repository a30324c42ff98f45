/** What `parse_struct_or_enum` and `parse_structures_and_unions` write, and
    the properties of the order they write it in. */
module Structures {
  import opened Wrappers
  import opened Names
  import opened Registry
  import opened CTypes
  import opened Templates
  import opened Members
  import Text

  const STRUCTURES_HEADER: string := "\n# STRUCTURES\n\n"

  /** One `define_structure`/`define_union` block written: the name it
      defines, the declaration it came from and which constructor it
      uses. */
  datatype Emission = Emission(name: string, decl: Decl, isStruct: bool)

  function Decls(root: Root): seq<Decl> {
    root.structs + root.unions
  }

  /** The names structs and unions are defined under. */
  function DeclNames(root: Root): set<string> {
    set d | d in Decls(root) :: RemovePrefix(d.name)
  }

  /** The type a member refers to, as the dependency check sees it. */
  function Dependency(m: Member): string {
    MapCtypes(TypeText(m.typeNode.text))
  }

  /** The struct, and the union, the dependency lookup finds for `t`. */
  function LookupStruct(root: Root, t: string): Option<Decl> {
    FindDecl(root.structs, "Vk" + t)
  }

  function LookupUnion(root: Root, t: string): Option<Decl> {
    FindDecl(root.unions, "Vk" + t)
  }

  predicate Found(root: Root, t: string) {
    LookupStruct(root, t).Some? || LookupUnion(root, t).Some?
  }

  /** `struct or union` fails on the type `t` when the struct found has no
      children and no union of that name exists. */
  predicate Selectable(root: Root, t: string) {
    LookupStruct(root, t).Some? && LookupStruct(root, t).value.members == [] ==> LookupUnion(root, t).Some?
  }

  /** No member type of the registry makes the lookup fail. */
  predicate RootReady(root: Root) {
    forall d, m :: d in Decls(root) && m in d.members ==> Selectable(root, Dependency(m))
  }

  /** The declaration `struct or union` selects: the struct when it has
      members, else the union. */
  function Chosen(root: Root, t: string): (d: Decl)
    requires Found(root, t) && Selectable(root, t)
    ensures d in Decls(root) && d.name == "Vk" + t
  {
    var s := LookupStruct(root, t);
    if s.Some? && s.value.members != [] then s.value else LookupUnion(root, t).value
  }

  /** The text written for one emission. */
  function Block(e: Emission): string {
    StructureBlock(e.name, MembersText(e.decl.members), e.isStruct)
  }

  function Blocks(es: seq<Emission>): string {
    if es == [] then "" else Blocks(es[..|es| - 1]) + Block(es[|es| - 1])
  }

  function EmittedNames(es: seq<Emission>): set<string> {
    set e | e in es :: e.name
  }

  /** An emission is for a declaration of the registry, under its name. */
  predicate FromRoot(root: Root, e: Emission) {
    e.decl in Decls(root) && e.name == RemovePrefix(e.decl.name)
  }

  /** The registry has no cycle of by-value or by-pointer references
      between distinct structs and unions: `rank` decreases along every
      reference the lookup resolves. */
  predicate Ranked(root: Root, rank: map<string, nat>) {
    forall d, m :: d in Decls(root) && m in d.members ==>
      var n := RemovePrefix(d.name);
      var t := Dependency(m);
      t != n && Found(root, t) ==> n in rank && t in rank && rank[t] < rank[n]
  }

  /** When `e` is written, each member type is the block's own name,
      already `ready`, or unknown to the registry. */
  predicate ReadyBefore(root: Root, e: Emission, ready: set<string>) {
    forall m :: m in e.decl.members ==>
      Dependency(m) == e.name || Dependency(m) in ready || !Found(root, Dependency(m))
  }

  /** Every block refers only to names defined before the stage or written
      before it. */
  predicate InOrder(root: Root, es: seq<Emission>, base: set<string>) {
    forall j :: 0 <= j < |es| ==> ReadyBefore(root, es[j], base + EmittedNames(es[..j]))
  }

  /** After a block is written, each of its member types is defined, or it
      is unknown to the registry and was reported. */
  predicate Resolved(root: Root, e: Emission, defined: seq<string>, notFound: seq<string>) {
    forall m :: m in e.decl.members ==>
      Dependency(m) in defined || (Dependency(m) in notFound && !Found(root, Dependency(m)))
  }

  /** Every block written defines a name of `defined`, and no name is
      written twice. */
  predicate Consistent(es: seq<Emission>, defined: seq<string>) {
    (forall j :: 0 <= j < |es| ==> es[j].name in defined)
    && (forall i, j :: 0 <= i < j < |es| ==> es[i].name != es[j].name)
  }

  lemma ConsistentGrows(es: seq<Emission>, d1: seq<string>, d2: seq<string>)
    requires Consistent(es, d1) && d1 <= d2
    ensures Consistent(es, d2)
  {
    forall j | 0 <= j < |es| ensures es[j].name in d2 {
      var i :| 0 <= i < |d1| && d1[i] == es[j].name;
      assert d2[i] == d1[i];
    }
  }

  function Elems(s: seq<string>): set<string> {
    set x | x in s
  }

  /** Every name of `stack` outranks `n`. */
  predicate Above(rank: map<string, nat>, stack: set<string>, n: string) {
    forall s :: s in stack ==> s in rank && n in rank && rank[n] < rank[s]
  }

  lemma PrefixMember<T>(x: T, a: seq<T>, b: seq<T>)
    requires x in a && a <= b
    ensures x in b
  {
    var i :| 0 <= i < |a| && a[i] == x;
    assert b[i] == a[i];
  }

  lemma ConsistentSnoc(es: seq<Emission>, defined: seq<string>, e: Emission)
    requires Consistent(es, defined) && e.name in defined
    requires forall j :: 0 <= j < |es| ==> es[j].name != e.name
    ensures Consistent(es + [e], defined)
  {
    var t := es + [e];
    forall j | 0 <= j < |t| ensures t[j].name in defined {
      if j < |es| { assert t[j] == es[j]; }
    }
    forall i, j | 0 <= i < j < |t| ensures t[i].name != t[j].name {
      assert t[i] == es[i];
      if j < |es| { assert t[j] == es[j]; }
    }
  }

  /** With no cycle in the registry, each member type of the block about to
      be written is ready: the types defined so far are the ready ones, the
      names in progress and the block itself, and a type in progress would
      outrank the block that refers to it. */
  lemma ReadyWhenWritten(root: Root, rank: map<string, nat>, e: Emission,
                         defined: set<string>, ready: set<string>, stack: set<string>)
    requires Ranked(root, rank) && FromRoot(root, e) && Above(rank, stack, e.name)
    requires forall m :: m in e.decl.members ==> Dependency(m) in defined || !Found(root, Dependency(m))
    requires defined <= ready + stack + {e.name}
    ensures ReadyBefore(root, e, ready)
  {
    forall m | m in e.decl.members
      ensures Dependency(m) == e.name || Dependency(m) in ready || !Found(root, Dependency(m))
    {
      var t := Dependency(m);
      if t != e.name && Found(root, t) && t in stack {
        assert false;
      }
    }
  }

  lemma {:induction false} BlocksConcat(a: seq<Emission>, b: seq<Emission>)
    ensures Blocks(a + b) == Blocks(a) + Blocks(b)
    decreases |b|
  {
    if b == [] {
      assert a + b == a;
    } else {
      var c := b[..|b| - 1];
      var e := b[|b| - 1];
      assert b == c + [e];
      assert a + b == (a + c) + [e];
      BlocksSnoc(a + c, e);
      BlocksSnoc(c, e);
      BlocksConcat(a, c);
      Text.ConcatAssoc(Blocks(a), Blocks(c), Block(e));
    }
  }

  lemma EmittedNamesConcat(a: seq<Emission>, b: seq<Emission>)
    ensures EmittedNames(a + b) == EmittedNames(a) + EmittedNames(b)
  {
    assert forall e :: e in a + b <==> e in a || e in b;
  }

  lemma InOrderSnoc(root: Root, es: seq<Emission>, e: Emission, base: set<string>)
    requires InOrder(root, es, base)
    requires ReadyBefore(root, e, base + EmittedNames(es))
    ensures InOrder(root, es + [e], base)
  {
    var t := es + [e];
    forall j | 0 <= j < |t| ensures ReadyBefore(root, t[j], base + EmittedNames(t[..j])) {
      if j < |es| {
        assert t[..j] == es[..j];
        assert t[j] == es[j];
      } else {
        assert t[..j] == es;
      }
    }
  }

  lemma ResolvedGrows(root: Root, e: Emission, d1: seq<string>, n1: seq<string>, d2: seq<string>, n2: seq<string>)
    requires Resolved(root, e, d1, n1) && d1 <= d2 && n1 <= n2
    ensures Resolved(root, e, d2, n2)
  {
    forall m | m in e.decl.members
      ensures Dependency(m) in d2 || (Dependency(m) in n2 && !Found(root, Dependency(m)))
    {
      if Dependency(m) in d1 {
        var i :| 0 <= i < |d1| && d1[i] == Dependency(m);
        assert d2[i] == d1[i];
      } else {
        var i :| 0 <= i < |n1| && n1[i] == Dependency(m);
        assert n2[i] == n1[i];
      }
    }
  }

  lemma {:induction false} SubsetCard(a: set<string>, b: set<string>)
    requires a <= b
    ensures |a| <= |b|
    decreases |a|
  {
    if a != {} {
      var x :| x in a;
      SubsetCard(a - {x}, b - {x});
    }
  }

  /** Registering one more declared name shrinks the set still to write. */
  lemma PendingShrinks(names: set<string>, before: set<string>, after: set<string>, x: string)
    requires before <= after && x in after && x in names && x !in before
    ensures |names - after| < |names - before|
  {
    SubsetCard(names - after, (names - before) - {x});
  }

  /** A struct that refers to another through the lookup is defined under
      the name the lookup was for. */
  lemma ChosenName(root: Root, t: string)
    requires Found(root, t) && Selectable(root, t)
    ensures RemovePrefix(Chosen(root, t).name) == t
  {
    RemovePrefixVk(t);
  }

  /** A declaration's name is one of the names to write. */
  lemma DeclNameListed(root: Root, d: Decl)
    requires d in Decls(root)
    ensures RemovePrefix(d.name) in DeclNames(root)
  {
  }

  /** The state the structure stage works on: the output so far,
      `DEFINED_IDENTIFIERS`, the names reported missing, and the blocks
      written, in order. */
  datatype Progress = Progress(output: string, defined: seq<string>, notFound: seq<string>, written: seq<Emission>)

  lemma ElemsSnoc(s: seq<string>, x: string)
    ensures Elems(s + [x]) == Elems(s) + {x}
  {
    assert forall y :: y in s + [x] <==> y in s || y == x;
  }

  lemma EmittedNamesSnoc(a: seq<Emission>, e: Emission)
    ensures EmittedNames(a + [e]) == EmittedNames(a) + {e.name}
  {
    assert forall y :: y in a + [e] <==> y in a || y == e;
  }

  lemma PrefixElems(a: seq<string>, b: seq<string>)
    requires a <= b
    ensures Elems(a) <= Elems(b)
  {
    forall x | x in a ensures x in b {
      PrefixMember(x, a, b);
    }
  }

  /** Defining more names never enlarges the set still to write. */
  lemma PendingNotLarger(names: set<string>, before: seq<string>, after: seq<string>)
    requires before <= after
    ensures |names - Elems(after)| <= |names - Elems(before)|
  {
    PrefixElems(before, after);
    SubsetCard(names - Elems(after), names - Elems(before));
  }

  /** Registering the name of `d` and anything after it leaves fewer
      declared names undefined. */
  lemma MeasureDrops(root: Root, d: Decl, before: seq<string>, registered: seq<string>, now: seq<string>)
    requires d in Decls(root) && RemovePrefix(d.name) !in before
    requires registered == before + [RemovePrefix(d.name)] && registered <= now
    ensures |DeclNames(root) - Elems(now)| < |DeclNames(root) - Elems(before)|
  {
    var name := RemovePrefix(d.name);
    DeclNameListed(root, d);
    PrefixMember(name, registered, now);
    assert before <= now;
    PrefixElems(before, now);
    PendingShrinks(DeclNames(root), Elems(before), Elems(now), name);
  }

  /** One step of `ResolveMembers`. */
  lemma MembersUnfold(root: Root, ms: seq<Member>, i: nat, p: Progress)
    requires RootReady(root) && (forall m :: m in ms ==> Selectable(root, Dependency(m))) && i < |ms|
    ensures ResolveMembers(root, ms[i..], p) == ResolveMembers(root, ms[i + 1..], ResolveMember(root, ms[i], p))
  {
    assert ms[i..][1..] == ms[i + 1..];
    assert ms[i..][0] == ms[i];
  }

  /** `parse_struct_or_enum` on one declaration: nothing if its name is
      defined; otherwise the name is registered, the members' types are
      resolved, and the block is written. */
  function ResolveDecl(root: Root, d: Decl, isStruct: bool, p: Progress): (r: Progress)
    requires RootReady(root) && d in Decls(root)
    ensures p.defined <= r.defined && p.notFound <= r.notFound && p.written <= r.written
    ensures RemovePrefix(d.name) in r.defined
    decreases |DeclNames(root) - Elems(p.defined)|, 1, 0
  {
    var name := RemovePrefix(d.name);
    if name in p.defined then p
    else
      var q := p.(defined := p.defined + [name]);
      DeclNameListed(root, d);
      PrefixElems(p.defined, q.defined);
      PendingShrinks(DeclNames(root), Elems(p.defined), Elems(q.defined), name);
      var r := ResolveMembers(root, d.members, q);
      PrefixMember(name, q.defined, r.defined);
      r.(output := r.output + Block(Emission(name, d, isStruct)),
         written := r.written + [Emission(name, d, isStruct)])
  }

  /** The check of one member's type: nothing if it is defined, a report if
      the registry has no struct or union for it, else that declaration is
      resolved first (as a struct exactly when no union has the name). */
  function ResolveMember(root: Root, m: Member, p: Progress): (r: Progress)
    requires RootReady(root) && Selectable(root, Dependency(m))
    ensures p.defined <= r.defined && p.notFound <= r.notFound && p.written <= r.written
    decreases |DeclNames(root) - Elems(p.defined)|, 1, 1
  {
    var t := Dependency(m);
    if t in p.defined then p
    else if !Found(root, t) then p.(notFound := p.notFound + [t])
    else ResolveDecl(root, Chosen(root, t), LookupUnion(root, t).None?, p)
  }

  /** The members' types, checked in order. */
  function ResolveMembers(root: Root, ms: seq<Member>, p: Progress): (r: Progress)
    requires RootReady(root) && forall m :: m in ms ==> Selectable(root, Dependency(m))
    ensures p.defined <= r.defined && p.notFound <= r.notFound && p.written <= r.written
    decreases |DeclNames(root) - Elems(p.defined)|, 2, |ms|
  {
    if ms == [] then p
    else
      var q := ResolveMember(root, ms[0], p);
      PendingNotLarger(DeclNames(root), p.defined, q.defined);
      ResolveMembers(root, ms[1..], q)
  }

  /** The top-level loops of `parse_structures_and_unions`, which leave
      `is_struct` at its default. */
  function ResolveAll(root: Root, ds: seq<Decl>, p: Progress): (r: Progress)
    requires RootReady(root) && forall d :: d in ds ==> d in Decls(root)
    ensures p.defined <= r.defined && p.notFound <= r.notFound && p.written <= r.written
    decreases |ds|
  {
    if ds == [] then p else ResolveAll(root, ds[1..], ResolveDecl(root, ds[0], true, p))
  }

  /** `parse_structures_and_unions`. */
  function StructuresStage(root: Root, p: Progress): Progress
    requires RootReady(root)
  {
    var q := ResolveAll(root, root.structs, p.(output := p.output + STRUCTURES_HEADER));
    ResolveAll(root, root.unions, q)
  }

  predicate Grows(p: Progress, r: Progress) {
    p.defined <= r.defined && p.notFound <= r.notFound && p.written <= r.written
  }

  /** The run wrote the blocks it recorded, and defined exactly their
      names. */
  predicate WroteAdded(p: Progress, r: Progress)
    requires Grows(p, r)
  {
    r.output == p.output + Blocks(r.written[|p.written|..])
    && Elems(r.defined) == Elems(p.defined) + EmittedNames(r.written[|p.written|..])
  }

  /** Each block recorded is for a declaration of the registry whose name
      was not defined before; each report is for a type the registry does
      not have. */
  predicate AddedFresh(root: Root, p: Progress, r: Progress)
    requires Grows(p, r)
  {
    (forall j :: |p.written| <= j < |r.written| ==>
       r.written[j].name !in p.defined && FromRoot(root, r.written[j]))
    && (forall j :: |p.notFound| <= j < |r.notFound| ==> !Found(root, r.notFound[j]))
  }

  /** What a run from `p` to `r` may have done. */
  predicate Extends(root: Root, p: Progress, r: Progress) {
    Grows(p, r) && WroteAdded(p, r) && AddedFresh(root, p, r)
  }

  /** Every name defined is defined before the stage, written by it, or in
      progress. */
  predicate Accounted(p: Progress, from: nat, base: set<string>, stack: set<string>) {
    from <= |p.written| && Elems(p.defined) <= base + EmittedNames(p.written[from..]) + stack
  }

  predicate AllResolved(root: Root, p: Progress, from: nat) {
    forall j :: from <= j < |p.written| ==> Resolved(root, p.written[j], p.defined, p.notFound)
  }

  /** The facts every step keeps. */
  predicate Kept(root: Root, p: Progress, from: nat, base: set<string>, stack: set<string>, rank: map<string, nat>) {
    Consistent(p.written, p.defined) && Accounted(p, from, base, stack) && AllResolved(root, p, from)
    && (Ranked(root, rank) ==> InOrder(root, p.written[from..], base))
  }

  lemma ExtendsRefl(root: Root, p: Progress)
    ensures Extends(root, p, p)
  {
    assert p.written[|p.written|..] == [];
  }

  lemma WroteAddedTrans(p: Progress, q: Progress, r: Progress)
    requires Grows(p, q) && Grows(q, r) && WroteAdded(p, q) && WroteAdded(q, r)
    ensures Grows(p, r) && WroteAdded(p, r)
  {
    var a := q.written[|p.written|..];
    var b := r.written[|q.written|..];
    assert r.written[|p.written|..] == a + b;
    BlocksConcat(a, b);
    Text.ConcatAssoc(p.output, Blocks(a), Blocks(b));
    EmittedNamesConcat(a, b);
  }

  lemma AddedFreshTrans(root: Root, p: Progress, q: Progress, r: Progress)
    requires Grows(p, q) && Grows(q, r) && AddedFresh(root, p, q) && AddedFresh(root, q, r)
    ensures Grows(p, r) && AddedFresh(root, p, r)
  {
    forall j | |p.written| <= j < |r.written|
      ensures r.written[j].name !in p.defined && FromRoot(root, r.written[j])
    {
      if j < |q.written| {
        assert r.written[j] == q.written[j];
      } else if r.written[j].name in p.defined {
        PrefixMember(r.written[j].name, p.defined, q.defined);
      }
    }
    forall j | |p.notFound| <= j < |r.notFound| ensures !Found(root, r.notFound[j]) {
      if j < |q.notFound| { assert r.notFound[j] == q.notFound[j]; }
    }
  }

  lemma ExtendsTrans(root: Root, p: Progress, q: Progress, r: Progress)
    requires Extends(root, p, q) && Extends(root, q, r)
    ensures Extends(root, p, r)
  {
    WroteAddedTrans(p, q, r);
    AddedFreshTrans(root, p, q, r);
  }

  /** Registering a name keeps the invariants, with the name in progress. */
  lemma KeptRegister(root: Root, p: Progress, name: string, from: nat, base: set<string>,
                     outer: set<string>, rank: map<string, nat>)
    requires Kept(root, p, from, base, outer, rank)
    ensures Kept(root, p.(defined := p.defined + [name]), from, base, outer + {name}, rank)
  {
    var q := p.(defined := p.defined + [name]);
    ConsistentGrows(p.written, p.defined, q.defined);
    ElemsSnoc(p.defined, name);
    forall j | from <= j < |q.written| ensures Resolved(root, q.written[j], q.defined, q.notFound) {
      ResolvedGrows(root, p.written[j], p.defined, p.notFound, q.defined, q.notFound);
    }
  }

  /** Reporting a type the registry does not have extends the state and
      keeps the invariants. */
  lemma ReportFacts(root: Root, p: Progress, t: string, from: nat, base: set<string>,
                    stack: set<string>, rank: map<string, nat>)
    requires Kept(root, p, from, base, stack, rank) && !Found(root, t)
    ensures Extends(root, p, p.(notFound := p.notFound + [t]))
    ensures Kept(root, p.(notFound := p.notFound + [t]), from, base, stack, rank)
  {
    var q := p.(notFound := p.notFound + [t]);
    assert q.written[|p.written|..] == [];
    forall j | from <= j < |q.written| ensures Resolved(root, q.written[j], q.defined, q.notFound) {
      ResolvedGrows(root, p.written[j], p.defined, p.notFound, q.defined, q.notFound);
    }
  }

  /** Writing the block `e` after a run from `q` (which is `p` with the
      name `e` defines registered) writes what `p` to the result records. */
  lemma WroteEmit(p: Progress, q: Progress, r1: Progress, e: Emission, r: Progress)
    requires q == p.(defined := p.defined + [e.name])
    requires Grows(q, r1) && WroteAdded(q, r1)
    requires r == r1.(output := r1.output + Block(e), written := r1.written + [e])
    ensures Grows(p, r) && WroteAdded(p, r)
  {
    assert Grows(p, r) by {
      assert p.defined <= q.defined;
      assert r1.written <= r.written;
    }
    var a := r1.written[|p.written|..];
    assert r.written[|p.written|..] == a + [e];
    OutputEmit(p.output, r1.output, a, e, r.output);
    ElemsSnoc(p.defined, e.name);
    DefinedEmit(Elems(p.defined), e, Elems(r.defined), a);
  }

  lemma OutputEmit(before: string, mid: string, a: seq<Emission>, e: Emission, after: string)
    requires mid == before + Blocks(a) && after == mid + Block(e)
    ensures after == before + Blocks(a + [e])
  {
    BlocksSnoc(a, e);
    Text.ConcatAssoc(before, Blocks(a), Block(e));
  }

  lemma DefinedEmit(before: set<string>, e: Emission, after: set<string>, a: seq<Emission>)
    requires after == before + {e.name} + EmittedNames(a)
    ensures after == before + EmittedNames(a + [e])
  {
    EmittedNamesSnoc(a, e);
  }

  lemma BlocksSnoc(a: seq<Emission>, e: Emission)
    ensures Blocks(a + [e]) == Blocks(a) + Block(e)
  {
    assert (a + [e])[..|a + [e]| - 1] == a;
  }

  lemma FreshEmit(root: Root, p: Progress, q: Progress, r1: Progress, e: Emission, r: Progress)
    requires q == p.(defined := p.defined + [e.name]) && e.name !in p.defined && FromRoot(root, e)
    requires Grows(q, r1) && AddedFresh(root, q, r1)
    requires r == r1.(output := r1.output + Block(e), written := r1.written + [e])
    ensures Grows(p, r) && AddedFresh(root, p, r)
  {
    forall j | |p.written| <= j < |r.written|
      ensures r.written[j].name !in p.defined && FromRoot(root, r.written[j])
    {
      if j < |r1.written| { assert r.written[j] == r1.written[j]; }
    }
  }

  /** Writing the block of `d` after its members were resolved from `q`
      extends `p`. */
  lemma ExtendsEmit(root: Root, p: Progress, q: Progress, r1: Progress, e: Emission, r: Progress)
    requires q == p.(defined := p.defined + [e.name]) && e.name !in p.defined && FromRoot(root, e)
    requires Extends(root, q, r1)
    requires r == r1.(output := r1.output + Block(e), written := r1.written + [e])
    ensures Extends(root, p, r)
  {
    WroteEmit(p, q, r1, e, r);
    FreshEmit(root, p, q, r1, e, r);
  }

  lemma ConsistentEmit(p: Progress, q: Progress, r1: Progress, e: Emission, r: Progress)
    requires q == p.(defined := p.defined + [e.name]) && e.name !in p.defined
    requires Consistent(p.written, p.defined) && Grows(q, r1) && Consistent(r1.written, r1.defined)
    requires forall j :: |q.written| <= j < |r1.written| ==> r1.written[j].name !in q.defined
    requires r == r1.(output := r1.output + Block(e), written := r1.written + [e])
    ensures Consistent(r.written, r.defined)
  {
    PrefixMember(e.name, q.defined, r1.defined);
    forall j | 0 <= j < |r1.written| ensures r1.written[j].name != e.name {
      if j < |p.written| {
        assert r1.written[j] == p.written[j];
      }
    }
    ConsistentSnoc(r1.written, r1.defined, e);
  }

  lemma ResolvedEmit(root: Root, r1: Progress, from: nat, e: Emission, r: Progress)
    requires from <= |r1.written| && AllResolved(root, r1, from)
    requires forall m :: m in e.decl.members ==>
      Dependency(m) in r1.defined || (Dependency(m) in r1.notFound && !Found(root, Dependency(m)))
    requires r == r1.(output := r1.output + Block(e), written := r1.written + [e])
    ensures AllResolved(root, r, from)
  {
    forall j | from <= j < |r.written| ensures Resolved(root, r.written[j], r.defined, r.notFound) {
      if j < |r1.written| { assert r.written[j] == r1.written[j]; }
    }
  }

  lemma OrderEmit(root: Root, r1: Progress, from: nat, base: set<string>, outer: set<string>,
                  rank: map<string, nat>, e: Emission, r: Progress)
    requires Ranked(root, rank) && FromRoot(root, e) && Above(rank, outer, e.name)
    requires Accounted(r1, from, base, outer + {e.name}) && InOrder(root, r1.written[from..], base)
    requires forall m :: m in e.decl.members ==> Dependency(m) in r1.defined || !Found(root, Dependency(m))
    requires r == r1.(output := r1.output + Block(e), written := r1.written + [e])
    ensures InOrder(root, r.written[from..], base)
  {
    ReadyWhenWritten(root, rank, e, Elems(r1.defined), base + EmittedNames(r1.written[from..]), outer);
    InOrderSnoc(root, r1.written[from..], e, base);
    assert r.written[from..] == r1.written[from..] + [e];
  }

  lemma AccountedEmit(r1: Progress, from: nat, base: set<string>, outer: set<string>, e: Emission, r: Progress)
    requires Accounted(r1, from, base, outer + {e.name})
    requires r == r1.(output := r1.output + Block(e), written := r1.written + [e])
    ensures Accounted(r, from, base, outer)
  {
    assert r.written[from..] == r1.written[from..] + [e];
    EmittedNamesSnoc(r1.written[from..], e);
  }

  /** Writing the block keeps the invariants, given that every member type
      is then defined or reported. */
  lemma KeptEmit(root: Root, p: Progress, q: Progress, r1: Progress, e: Emission, r: Progress,
                 from: nat, base: set<string>, outer: set<string>, rank: map<string, nat>)
    requires q == p.(defined := p.defined + [e.name]) && e.name !in p.defined && FromRoot(root, e)
    requires Kept(root, p, from, base, outer, rank)
    requires Ranked(root, rank) ==> Above(rank, outer, e.name)
    requires Extends(root, q, r1) && Kept(root, r1, from, base, outer + {e.name}, rank)
    requires forall m :: m in e.decl.members ==>
      Dependency(m) in r1.defined || (Dependency(m) in r1.notFound && !Found(root, Dependency(m)))
    requires r == r1.(output := r1.output + Block(e), written := r1.written + [e])
    ensures Kept(root, r, from, base, outer, rank)
  {
    ConsistentEmit(p, q, r1, e, r);
    AccountedEmit(r1, from, base, outer, e, r);
    ResolvedEmit(root, r1, from, e, r);
    if Ranked(root, rank) {
      OrderEmit(root, r1, from, base, outer, rank, e, r);
    }
  }

  /** Resolving `d` extends the state and keeps the invariants: with no
      cycle, each block is written after everything it refers to. */
  lemma {:induction false} DeclFacts(root: Root, d: Decl, isStruct: bool, p: Progress,
                                     from: nat, base: set<string>, outer: set<string>, rank: map<string, nat>)
    requires RootReady(root) && d in Decls(root)
    requires Kept(root, p, from, base, outer, rank)
    requires Ranked(root, rank) ==> Above(rank, outer, RemovePrefix(d.name))
    ensures Extends(root, p, ResolveDecl(root, d, isStruct, p))
    ensures Kept(root, ResolveDecl(root, d, isStruct, p), from, base, outer, rank)
    decreases |DeclNames(root) - Elems(p.defined)|, 1, 0
  {
    var name := RemovePrefix(d.name);
    if name in p.defined {
      ExtendsRefl(root, p);
    } else {
      var q := p.(defined := p.defined + [name]);
      DeclNameListed(root, d);
      PrefixElems(p.defined, q.defined);
      PendingShrinks(DeclNames(root), Elems(p.defined), Elems(q.defined), name);
      KeptRegister(root, p, name, from, base, outer, rank);
      MembersFacts(root, d, d.members, q, from, base, outer, rank);
      var r1 := ResolveMembers(root, d.members, q);
      var e := Emission(name, d, isStruct);
      var r := r1.(output := r1.output + Block(e), written := r1.written + [e]);
      assert r == ResolveDecl(root, d, isStruct, p);
      ExtendsEmit(root, p, q, r1, e, r);
      KeptEmit(root, p, q, r1, e, r, from, base, outer, rank);
    }
  }

  /** Checking one member of `d` (whose name is registered) extends the
      state, keeps the invariants, and leaves the member's type defined or
      reported. */
  lemma {:induction false} MemberFacts(root: Root, d: Decl, m: Member, p: Progress,
                                       from: nat, base: set<string>, outer: set<string>, rank: map<string, nat>)
    requires RootReady(root) && d in Decls(root) && m in d.members && RemovePrefix(d.name) in p.defined
    requires Kept(root, p, from, base, outer + {RemovePrefix(d.name)}, rank)
    requires Ranked(root, rank) ==> Above(rank, outer, RemovePrefix(d.name))
    ensures var r := ResolveMember(root, m, p);
      Extends(root, p, r) && Kept(root, r, from, base, outer + {RemovePrefix(d.name)}, rank)
      && (Dependency(m) in r.defined || (Dependency(m) in r.notFound && !Found(root, Dependency(m))))
    decreases |DeclNames(root) - Elems(p.defined)|, 1, 1
  {
    var t := Dependency(m);
    var stack := outer + {RemovePrefix(d.name)};
    if t in p.defined {
      ExtendsRefl(root, p);
    } else if !Found(root, t) {
      ReportFacts(root, p, t, from, base, stack, rank);
    } else {
      var c := Chosen(root, t);
      ChosenName(root, t);
      DeclFacts(root, c, LookupUnion(root, t).None?, p, from, base, stack, rank);
    }
  }

  /** The same for the members `ms` of `d`, checked in order. */
  lemma {:induction false} MembersFacts(root: Root, d: Decl, ms: seq<Member>, p: Progress,
                                        from: nat, base: set<string>, outer: set<string>, rank: map<string, nat>)
    requires RootReady(root) && d in Decls(root) && RemovePrefix(d.name) in p.defined
    requires forall m :: m in ms ==> m in d.members
    requires Kept(root, p, from, base, outer + {RemovePrefix(d.name)}, rank)
    requires Ranked(root, rank) ==> Above(rank, outer, RemovePrefix(d.name))
    ensures var r := ResolveMembers(root, ms, p);
      Extends(root, p, r) && Kept(root, r, from, base, outer + {RemovePrefix(d.name)}, rank)
      && forall m :: m in ms ==>
           Dependency(m) in r.defined || (Dependency(m) in r.notFound && !Found(root, Dependency(m)))
    decreases |DeclNames(root) - Elems(p.defined)|, 2, |ms|
  {
    if ms == [] {
      ExtendsRefl(root, p);
    } else {
      var q := ResolveMember(root, ms[0], p);
      MemberFacts(root, d, ms[0], p, from, base, outer, rank);
      PendingNotLarger(DeclNames(root), p.defined, q.defined);
      PrefixMember(RemovePrefix(d.name), p.defined, q.defined);
      MembersFacts(root, d, ms[1..], q, from, base, outer, rank);
      var r := ResolveMembers(root, ms[1..], q);
      assert r == ResolveMembers(root, ms, p);
      ExtendsTrans(root, p, q, r);
      var t := Dependency(ms[0]);
      if t in q.defined {
        PrefixMember(t, q.defined, r.defined);
      } else {
        PrefixMember(t, q.notFound, r.notFound);
      }
      forall m | m in ms
        ensures Dependency(m) in r.defined || (Dependency(m) in r.notFound && !Found(root, Dependency(m)))
      {
        if m != ms[0] { assert m in ms[1..]; }
      }
    }
  }

  /** The top-level loop over `ds` defines every name of `ds`. */
  lemma {:induction false} AllFacts(root: Root, ds: seq<Decl>, p: Progress,
                                    from: nat, base: set<string>, rank: map<string, nat>)
    requires RootReady(root) && forall d :: d in ds ==> d in Decls(root)
    requires Kept(root, p, from, base, {}, rank)
    ensures var r := ResolveAll(root, ds, p);
      Extends(root, p, r) && Kept(root, r, from, base, {}, rank)
      && forall d :: d in ds ==> RemovePrefix(d.name) in r.defined
    decreases |ds|
  {
    if ds == [] {
      ExtendsRefl(root, p);
    } else {
      var q := ResolveDecl(root, ds[0], true, p);
      DeclFacts(root, ds[0], true, p, from, base, {}, rank);
      AllFacts(root, ds[1..], q, from, base, rank);
      var r := ResolveAll(root, ds[1..], q);
      ExtendsTrans(root, p, q, r);
      PrefixMember(RemovePrefix(ds[0].name), q.defined, r.defined);
      forall d | d in ds ensures RemovePrefix(d.name) in r.defined {
        if d != ds[0] { assert d in ds[1..]; }
      }
    }
  }

  /** Blocks written for new declarations of the registry, which define all
      of its names, are exactly those not defined before. */
  lemma EmittedPending(root: Root, before: set<string>, es: seq<Emission>)
    requires forall j :: 0 <= j < |es| ==> es[j].name !in before && FromRoot(root, es[j])
    requires DeclNames(root) <= before + EmittedNames(es)
    ensures EmittedNames(es) == DeclNames(root) - before
  {
    forall x | x in EmittedNames(es) ensures x in DeclNames(root) && x !in before {
      var j :| 0 <= j < |es| && es[j].name == x;
      DeclNameListed(root, es[j].decl);
    }
  }

  /** What `parse_structures_and_unions` achieves, starting from a state
      with no block written: it writes the header and then one block per
      struct or union whose name was not already defined, each exactly
      once, for a declaration of the registry, leaving every member type
      defined or reported as not found; every name of the registry ends up
      defined; and, when the registry has no reference cycle, every block
      comes after the blocks of the types it refers to. */
  lemma StageFacts(root: Root, p: Progress, rank: map<string, nat>)
    requires RootReady(root) && p.written == []
    ensures var r := StructuresStage(root, p);
      && r.output == p.output + STRUCTURES_HEADER + Blocks(r.written)
      && p.defined <= r.defined && p.notFound <= r.notFound
      && Elems(r.defined) == Elems(p.defined) + EmittedNames(r.written)
      && DeclNames(root) <= Elems(r.defined)
      && EmittedNames(r.written) == DeclNames(root) - Elems(p.defined)
      && Consistent(r.written, r.defined)
      && (forall j :: 0 <= j < |r.written| ==>
            r.written[j].name !in p.defined && FromRoot(root, r.written[j])
            && Resolved(root, r.written[j], r.defined, r.notFound))
      && (forall j :: |p.notFound| <= j < |r.notFound| ==> !Found(root, r.notFound[j]))
      && (Ranked(root, rank) ==> InOrder(root, r.written, Elems(p.defined)))
  {
    var p0 := p.(output := p.output + STRUCTURES_HEADER);
    var base := Elems(p.defined);
    assert Kept(root, p0, 0, base, {}, rank) by {
      assert p0.written[0..] == [];
    }
    AllFacts(root, root.structs, p0, 0, base, rank);
    var q := ResolveAll(root, root.structs, p0);
    AllFacts(root, root.unions, q, 0, base, rank);
    var r := ResolveAll(root, root.unions, q);
    ExtendsTrans(root, p0, q, r);
    assert r.written[0..] == r.written;
    forall x | x in DeclNames(root) ensures x in Elems(r.defined) {
      var d :| d in Decls(root) && x == RemovePrefix(d.name);
      if d in root.structs {
        PrefixMember(x, q.defined, r.defined);
      }
    }
    EmittedPending(root, Elems(p.defined), r.written);
  }
}
