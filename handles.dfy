/** `parse_handles`: one ctypes alias per `<type category="handle">`. */
module Handles {
  import opened Text
  import opened Names
  import opened Registry
  import opened Templates
  import opened CTypes

  const HANDLES_HEADER: string := "\n# HANDLES\n\n"

  /** The name a handle is defined under. */
  function HandleName(h: Handle): string {
    RemovePrefix(h.name)
  }

  /** Dispatchable handles are pointers (`c_size_t`), the others 64-bit
      integers (`c_uint64`); both names are looked up in `TYPES_MAP`. */
  function HandleType(h: Handle): (t: string)
    ensures t == "c_size_t" <==> h.typeText == "VK_DEFINE_HANDLE"
    ensures t == "c_size_t" || t == "c_uint64"
  {
    if h.typeText == "VK_DEFINE_HANDLE" then TYPES_MAP["size_t"] else TYPES_MAP["uint64_t"]
  }

  /** The names `parse_handles` appends to `HANDLE_NAMES`. */
  function HandleNames(hs: seq<Handle>): (r: seq<string>)
    ensures |r| == |hs|
  {
    if hs == [] then [] else HandleNames(hs[..|hs| - 1]) + [HandleName(hs[|hs| - 1])]
  }

  function HandleLines(hs: seq<Handle>): string {
    if hs == [] then "" else HandleLine(HandleName(hs[0]), HandleType(hs[0])) + HandleLines(hs[1..])
  }

  /** The two ctypes names a handle can have are those `TYPES_MAP` gives
      `size_t` and `uint64_t`. */
  lemma HandleTypesMapped()
    ensures TYPES_MAP["size_t"] == "c_size_t" && TYPES_MAP["uint64_t"] == "c_uint64"
  {
  }

  /** Everything `parse_handles` writes. */
  function HandlesText(hs: seq<Handle>): string {
    HANDLES_HEADER + HandleLines(hs) + "\n"
  }

  /** One more handle of `hs`: one more line and one more name. */
  lemma HandlesStep(hs: seq<Handle>, i: nat)
    requires i < |hs|
    ensures HandleLines(hs[..i + 1]) == HandleLines(hs[..i]) + HandleLine(HandleName(hs[i]), HandleType(hs[i]))
    ensures HandleNames(hs[..i + 1]) == HandleNames(hs[..i]) + [HandleName(hs[i])]
  {
    assert hs[..i + 1] == hs[..i] + [hs[i]];
    HandleLinesSnoc(hs[..i], hs[i]);
    HandleNamesSnoc(hs[..i], hs[i]);
  }

  lemma HandleNamesSnoc(hs: seq<Handle>, h: Handle)
    ensures HandleNames(hs + [h]) == HandleNames(hs) + [HandleName(h)]
  {
    assert (hs + [h])[..|hs|] == hs;
  }

  lemma {:induction false} HandleLinesSnoc(hs: seq<Handle>, h: Handle)
    ensures HandleLines(hs + [h]) == HandleLines(hs) + HandleLine(HandleName(h), HandleType(h))
    decreases |hs|
  {
    if hs == [] {
      assert [h][1..] == [];
    } else {
      assert (hs + [h])[1..] == hs[1..] + [h];
      HandleLinesSnoc(hs[1..], h);
    }
  }

  /** `VkInstance` is written as `Instance = c_size_t`. */
  lemma HandleLineInstance()
    ensures var h := Handle("VK_DEFINE_HANDLE", "VkInstance");
      HandleLine(HandleName(h), HandleType(h)) == "Instance = c_size_t\n"
  {
    RemovePrefixVk("Instance");
  }
}
