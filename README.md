# Vulkan ctypes wrapper generator, modelled in Dafny

`create_vulkan_wrapper.py` reads the Vulkan registry (`vk.xml`) and writes a
Python module of `ctypes` declarations. The module has the following parts:

- handle aliases;
- enum constants;
- `define_structure` / `define_union` blocks, ordered so that dependencies come first;
- command tables grouped into families keyed by dispatchable handle, plus the `GetInstanceProcAddr` entry point;
- extension constants.

This project models the logic between reading the XML and writing the file.

- **Registry** (`registry.dfy`) is the XML element tree as datatypes: handles, `<enums>` groups, struct and union declarations with their members, commands and extensions.
- **Text** (`text.dfy`) covers the Python string operations the generator relies on: `str.replace`, `strip`/`lstrip` on Python's whitespace set, `str(int)`.
- **Names** (`names.dfy`):
  - `to_snake_case`, as the left-to-right non-overlapping scan the regular expression performs;
  - `remove_prefix`;
  - `pythonize_field_name`.
- **Templates** (`templates.dfy`):
  - `lstrip_t` and `expand`;
  - each output template as it reads once `prepare_templates` has normalised it.
- **CTypes** (`ctypes.dfy`):
  - `TYPES_MAP`, `map_ctypes`, `format_pointer`, `format_array`;
  - `TYPES_SUFFIX` and `pythonize_value`;
  - `parse_offset`, with the extension enumerant numbering rule of the Vulkan specification (base `1000000000 + (number - 1) * 1000`, negated for `dir="-"`).
- **Members** (`members.dfy`): `parse_structure_member`.
- **Handles, Enums, Structures, Commands, Extensions** each state, as functions of the registry, the text one `parse_*` stage writes and the identifiers it registers.
- **Structures** (`structures.dfy`) also models the recursive dependency resolver of `parse_struct_or_enum` as a function over a `Progress` state. That state holds:
  - the output;
  - `DEFINED_IDENTIFIERS`;
  - the names reported as not found;
  - a ghost list of the blocks written.
- **Generator** (`generator.dfy`) is the imperative side: a class whose fields are the output written so far, `DEFINED_IDENTIFIERS`, `HANDLE_NAMES` and the not-found reports.
  - Its methods `ParseHandles`, `ParseEnums`, `Resolve`, `ParseStructuresAndUnions`, `ParseCommands` and `ParseExtensions` run the source's loops and its recursion.
  - Each is proved to leave exactly the state the matching specification function describes.
  - `GroupCommands` builds `commands_groups` as a map, keeping the keys in first-seen order.
  - Families are written in that first-seen order. This is the order in which Python 3.7 and later iterate `commands_groups.items()` at create_vulkan_wrapper.py:551. Under Python 2, which the script's docstring also names, dict order is arbitrary, and the model does not cover it.

The output file is modelled as one string that each stage only appends to, rather than as a list of written chunks. Their concatenation is the same text.

Where the code and its documentation differ, the model follows the code:

- `to_snake_case` is not idempotent: `fooABC` becomes `foo_ABC`, which becomes `foo__ABC`.
- `remove_prefix` rewrites names that start with `PFN_vk` using `str.replace`, so every occurrence of `PFN_vk` in the name becomes `fn_`, not just the leading one.
- A struct or union registers its own name before visiting its dependencies. That is the only guard against cycles. The termination measure is the number of declared names not yet defined.
- `parse_structures_and_unions` calls `parse_struct_or_enum` on the top-level unions with the default `is_struct=True`. So a union reached only from that loop is written with `define_structure`. A dependency is written as a union exactly when a union of that name exists (`union is None` is the flag passed).
- `vkGetDeviceProcAddr` is moved to the `Instance` family only when its first parameter is a handle (the `elif`). Otherwise it joins `Loader`. So every family key is a handle name, `Loader` or `Instance`.
- Command arguments take at most one pointer level, whatever the number of `*`.

## Model

| member | source | states |
|---|---|---|
| Text.ReplaceAllNotLonger | create_vulkan_wrapper.py:261-262 | `str.replace` with a replacement no longer than the pattern never lengthens the string |
| Text.ReplaceCharRemoves | create_vulkan_wrapper.py:231-232 | replacing every occurrence of a character by text without it leaves no occurrence |
| Text.ReplaceAllNoNewChar | create_vulkan_wrapper.py:231-232 | `str.replace` introduces no character absent from the input and the replacement |
| Text.TrimStart | create_vulkan_wrapper.py:228-229 | the result is a suffix of the input whose dropped characters are all in the set, and it is empty or starts with a character outside the set |
| Text.TrimEnd | create_vulkan_wrapper.py:235 | the right-hand strip keeps a prefix, drops only characters of the set, and stops at one outside it |
| Text.NatToStringValue | create_vulkan_wrapper.py:314 | `str` of a natural number is a digit string that reads back as that number |
| Text.IntToStringRoundTrip | create_vulkan_wrapper.py:314 | `str` of any integer reads back as that integer, sign included |
| Names.SnakeCaseWithoutCapitals | create_vulkan_wrapper.py:213-226 | a name without an ASCII capital is returned unchanged |
| Names.SnakeCaseOnlyInsertsUnderscores | create_vulkan_wrapper.py:213-226 | snake-casing keeps the case-folded letters in order and never makes the name shorter |
| Names.SnakeCaseNotIdempotent | create_vulkan_wrapper.py:213-226 | `fooABC` becomes `foo_ABC`, and snake-casing that again gives `foo__ABC` |
| Names.RemovePrefix | create_vulkan_wrapper.py:253-264 | the result is never longer than the name |
| Names.SnakeCasePfnPrefix | create_vulkan_wrapper.py:259 | the second replace-prefix `to_snake_case('PFN_vk')` is `PFN_vk` itself |
| Names.RemovePrefixStripsFirstMatch | create_vulkan_wrapper.py:254-257 | a name starting with `Vk`, `VK_` or `vk` loses exactly the first of them it starts with |
| Names.RemovePrefixFunctionPointer | create_vulkan_wrapper.py:259-262 | a name starting with `PFN_vk` has every `PFN_vk` replaced by `fn_` |
| Names.RemovePrefixUnprefixed | create_vulkan_wrapper.py:253-264 | a name starting with none of the four prefixes is returned unchanged |
| Names.RemovePrefixVk | create_vulkan_wrapper.py:254-257 | `remove_prefix('Vk' + t) == t`, so a dependency looked up as `Vk` + t defines t |
| Names.RemovePrefixNumeral | create_vulkan_wrapper.py:577 | the text of an integer passes through `remove_prefix` unchanged |
| Names.PythonizeFieldName | create_vulkan_wrapper.py:243-251 | the loop over `p_`, `pp_`, `pfn_` computes the snake-cased name with those prefixes removed in that order |
| Names.FieldNameIsSuffix | create_vulkan_wrapper.py:243-251 | the field name is a suffix of the snake-cased name |
| Names.FieldNameExamples | create_vulkan_wrapper.py:243-251 | `pNext` becomes `next` and `ppData` becomes `data` |
| Templates.LineLength | create_vulkan_wrapper.py:229 | `splitlines(True)` splits after each line break and keeps it |
| Templates.LstripTStartsLinesClean | create_vulkan_wrapper.py:92-95 | after `lstrip_t` no whitespace starts the text or follows a line break |
| Templates.LstripTLine | create_vulkan_wrapper.py:228-229 | an indented line loses its indentation and keeps the rest, trailing whitespace included |
| Templates.LstripTBlankLine | create_vulkan_wrapper.py:228-229 | a whitespace-only line disappears |
| Templates.LstripTLastLine | create_vulkan_wrapper.py:228-229 | a last line without indentation or break is kept as it is |
| Templates.LstripIndented | create_vulkan_wrapper.py:229 | `lstrip` of indentation followed by text is the text |
| Templates.ExpandByCharacter | create_vulkan_wrapper.py:231-232 | the three chained replaces equal one pass mapping each backtick to four spaces, `?` to nothing and `$` to a line break |
| Templates.ExpandRemovesMarkers | create_vulkan_wrapper.py:92-95 | `expand` leaves no backtick, `?` or `$` |
| Templates.ExpandIdempotent | create_vulkan_wrapper.py:231-232 | expanding an expanded template changes nothing |
| Registry.FindDecl | create_vulkan_wrapper.py:266-270 | `first` over the declarations named `name` finds the first one in order, or none exactly when no declaration has that name |
| Registry.FirstEnum | create_vulkan_wrapper.py:570 | `require.find('enum')` gives an `enum` child preceded by no other `enum` child (the first one), or none exactly when there is none |
| CTypes.TypesMapKeysLowerCase | create_vulkan_wrapper.py:77-88 | every C type name of `TYPES_MAP` starts with a lower-case letter, so no `Vk` name is mapped by the table |
| CTypes.TypeName | create_vulkan_wrapper.py:278-285 | a plain string is looked up as it is; the name of an element has no whitespace at either end and is at most one character (the first of the tail) longer than its text |
| CTypes.MapCtypes | create_vulkan_wrapper.py:277-292 | a name known to `TYPES_MAP` becomes one of its ctypes names; any other name never grows, since it only loses a Vulkan prefix |
| CTypes.MapCtypesVulkanType | create_vulkan_wrapper.py:289-290 | a Vulkan type `Vk` + t maps to t |
| CTypes.MapCtypesPointerElement | create_vulkan_wrapper.py:280-285 | an element whose text plus first tail character strips to `void*` maps to `c_void_p` |
| CTypes.FormatPointer | create_vulkan_wrapper.py:300-306 | the pointer type is never empty, and it is `c_void_p` exactly for `None` and `c_char_p` exactly for `c_char`, so no other type gets a special pointer type |
| CTypes.FormatPointerRoundTrip | create_vulkan_wrapper.py:300-306 | the pointed-to type can be read back from every pointer type, so no two types share one |
| CTypes.PointersNested | create_vulkan_wrapper.py:448-449 | n pointer levels on a type other than `None`/`c_char` give n nested `POINTER(...)` |
| CTypes.PointersFirstLevel | create_vulkan_wrapper.py:448-449 | n + 1 levels are n levels over the first `format_pointer` |
| CTypes.PointersToVoid | create_vulkan_wrapper.py:301-302 | n levels over `None` are n - 1 `POINTER(...)` around `c_void_p` |
| CTypes.PointersToChar | create_vulkan_wrapper.py:303-304 | n levels over `c_char` are n - 1 `POINTER(...)` around `c_char_p` |
| CTypes.FormatArray | create_vulkan_wrapper.py:297-298 | the array type is `(` type `*` length `)`, both parts recoverable |
| CTypes.SuffixFrom | create_vulkan_wrapper.py:236-239 | the search over `TYPES_SUFFIX` finds the first suffix the value ends with, or reports that none matches |
| CTypes.PythonizeValue | create_vulkan_wrapper.py:234-241 | the loop over the suffix table computes the pythonized value, with parentheses stripped first |
| CTypes.SuffixesExclusive | create_vulkan_wrapper.py:49 | no value ends with two different suffixes of the table, so its order does not matter |
| CTypes.PythonizedValueSuffix | create_vulkan_wrapper.py:234-241 | a value ending in `U`, `ULL` or `f` becomes `c_uint(v)`, `c_uint64(v)` or `c_float(v)` without the suffix |
| CTypes.PythonizedValuePlain | create_vulkan_wrapper.py:234-241 | any other value is returned with only the surrounding parentheses stripped |
| CTypes.StripParentheses | create_vulkan_wrapper.py:235 | one pair of surrounding parentheses is stripped |
| CTypes.PythonizedValueParenthesised | create_vulkan_wrapper.py:234-241 | a parenthesised suffixed literal such as `(~0U)` becomes `c_uint(~0)` |
| CTypes.BaseOffset | create_vulkan_wrapper.py:575 | the base of every extension numbered 1 or more is at least 1000000000 |
| CTypes.ParseOffset | create_vulkan_wrapper.py:308-314 | the text is a sign or a digit followed only by digits, and it starts with `-` exactly when the offset value is negative |
| CTypes.ParseOffsetValue | create_vulkan_wrapper.py:308-314 | the text reads back as offset + base with the sign of `dir`, and starts with `-` exactly when `dir` is `-` |
| CTypes.ParseOffsetExample | create_vulkan_wrapper.py:308-314 | offset 0 with `dir="-"` in extension number 5 gives `-1000004000` |
| Members.NameTail | create_vulkan_wrapper.py:452 | a missing name tail reads as a single space, so it is never empty |
| Members.ParseStructureMember | create_vulkan_wrapper.py:439-462 | the method, with its counted pointer loop, returns the field name and the pointer- then array-wrapped member type |
| Members.ArrayLengthLiteral | create_vulkan_wrapper.py:452-456 | a name tail `[n]` without an enum child makes an array of literal length `n` |
| Members.ArrayLengthNoBrackets | create_vulkan_wrapper.py:456 | a literal length contains no bracket |
| Members.ArrayLengthEnum | create_vulkan_wrapper.py:457-459 | an enum child `VK_` + c makes an array of length c |
| Members.MemberTypeNested | create_vulkan_wrapper.py:442-449 | a non-array member's type is its mapped type under one `POINTER(...)` per `*` |
| Members.StructureMemberNext | create_vulkan_wrapper.py:439-462 | the `void* pNext` member becomes `('next', c_void_p)` |
| Members.MemberCharPointer | create_vulkan_wrapper.py:442-449 | a non-array `char` member with one `*` gets the type `c_char_p` |
| Handles.HandleType | create_vulkan_wrapper.py:354-357 | the `TYPES_MAP` lookups of `size_t` and `uint64_t` make a handle `c_size_t` exactly when it is `VK_DEFINE_HANDLE`, and `c_uint64` otherwise |
| Handles.HandleNames | create_vulkan_wrapper.py:359-361 | one name is registered per handle |
| Handles.HandleTypesMapped | create_vulkan_wrapper.py:353-357 | the two handle kinds map to `c_size_t` and `c_uint64` in `TYPES_MAP` |
| Handles.HandleLinesSnoc | create_vulkan_wrapper.py:353-362 | each handle appends its own line after the earlier ones |
| Handles.HandleLineInstance | create_vulkan_wrapper.py:353-362 | `VkInstance` is written as `Instance = c_size_t` |
| Enums.EnumsNames | create_vulkan_wrapper.py:412 | one identifier is registered per `<enums>` block |
| Enums.EnumsNameHasNoSpace | create_vulkan_wrapper.py:404 | an enums name contains no space once spaces have become underscores |
| Enums.EnumsNameWithoutSpaces | create_vulkan_wrapper.py:404 | a name without spaces only loses its Vulkan prefix |
| Enums.EnumLinesConcat | create_vulkan_wrapper.py:406-409 | the lines of consecutive members concatenate |
| Enums.EnumValueBitpos | create_vulkan_wrapper.py:399-407 | a member without a value is written as `1<<bitpos` |
| Extensions.ExtensionsBodyConcat | create_vulkan_wrapper.py:567-581 | the blocks of consecutive extensions concatenate |
| Extensions.PlaceholderSkipped | create_vulkan_wrapper.py:569-572 | an extension whose first required enum has value `0` writes nothing |
| Extensions.ExtensionAnnounced | create_vulkan_wrapper.py:574-581 | any other extension's block starts with `#` and its name |
| Extensions.ExtensionValueOffset | create_vulkan_wrapper.py:561-577 | a required enum with neither value nor bitpos is written as its offset value's text |
| Commands.TypedParams | create_vulkan_wrapper.py:526 | only nodes of parameters having a `<type>` are kept, every such node is kept, and the first one kept is that of the first typed parameter |
| Commands.ArgumentType | create_vulkan_wrapper.py:505-509 | an argument whose tail starts with `*` is exactly one pointer level over its mapped type, `Pointers(t, 1)`, and the pointee reads back; any other argument has its mapped type |
| Commands.ArgumentTypeOneLevel | create_vulkan_wrapper.py:505-509 | any tail starting with `*` gives exactly one pointer level, the same as a single `*` |
| Commands.ArgumentDoublePointer | create_vulkan_wrapper.py:505-509 | a `**` parameter has one pointer level where a `**` struct member has two |
| Commands.FamilyKey | create_vulkan_wrapper.py:538-544 | every family key is a handle name, `Loader` or `Instance` |
| Commands.FamilyMembers | create_vulkan_wrapper.py:546-549 | a family holds only commands of the list, other than `vkGetInstanceProcAddr`, whose key is the family's |
| Commands.Definitions | create_vulkan_wrapper.py:539 | one definition line per command |
| Commands.LastEntryPoint | create_vulkan_wrapper.py:531-533 | the entry point kept is a `vkGetInstanceProcAddr` command of the list, and is none exactly when the list has none |
| Commands.FamilyOrderMembers | create_vulkan_wrapper.py:546-551 | a key is emitted exactly when some command other than `vkGetInstanceProcAddr` has it |
| Commands.FamilyOrderDistinct | create_vulkan_wrapper.py:546-551 | each family is emitted once |
| Commands.FamilyNonEmpty | create_vulkan_wrapper.py:546-551 | a family has commands exactly when its key is emitted |
| Commands.FamilyComplete | create_vulkan_wrapper.py:538-549 | every command other than `vkGetInstanceProcAddr` is in the family of its key |
| Commands.FamilyOrderStep | create_vulkan_wrapper.py:546-547 | a command adds its key to the order only when that key is new |
| Commands.FamilyStep | create_vulkan_wrapper.py:546-549 | a command appends its definition to its own family and to no other |
| Commands.LastEntryPointStep | create_vulkan_wrapper.py:531-533 | a later `vkGetInstanceProcAddr` replaces the one kept |
| Structures.Chosen | create_vulkan_wrapper.py:481-487 | `struct or union` selects a registry declaration named `Vk` + t |
| Structures.ChosenName | create_vulkan_wrapper.py:465-469 | the declaration chosen for t registers t |
| Structures.ResolveDecl | create_vulkan_wrapper.py:464-491 | resolving a declaration only grows the defined, reported and written lists, and its name ends up defined |
| Structures.ResolveMember | create_vulkan_wrapper.py:478-487 | checking one member type only grows the state |
| Structures.ResolveMembers | create_vulkan_wrapper.py:477-487 | checking the member types in order only grows the state |
| Structures.ResolveAll | create_vulkan_wrapper.py:499-503 | the top-level loop only grows the state |
| Structures.InOrderSnoc | create_vulkan_wrapper.py:491 | writing a block whose dependencies are ready keeps the dependencies-first order |
| Structures.MeasureDrops | create_vulkan_wrapper.py:465-469 | registering a declaration's own name before visiting its dependencies strictly lowers the number of declared names not yet defined, so each recursive call is made with a smaller measure |
| Structures.DeclFacts | create_vulkan_wrapper.py:464-491 | a resolution call writes each block at most once, only for new names. It keeps every written block resolved, and keeps the dependencies-first order when the registry has a rank |
| Structures.AllFacts | create_vulkan_wrapper.py:493-503 | the top-level loop keeps those facts and defines every declaration it visits |
| Structures.EmittedPending | create_vulkan_wrapper.py:464-503 | the names written are exactly the declared names not defined before |
| Structures.StageFacts | create_vulkan_wrapper.py:464-503 | the whole stage: the header and blocks appended, `DEFINED_IDENTIFIERS` only grows and ends covering every declaration, each undefined declaration written once and no other, every dependency of a written block defined or reported as not found, reports only for names missing from the registry, and dependencies written first when the registry is acyclic |
| Generator.TypesMapSeeded | create_vulkan_wrapper.py:55-57 | every ctypes name of `TYPES_MAP` is in the seed list of defined identifiers |
| Generator.GroupCommands | create_vulkan_wrapper.py:517-549 | the loop builds the families in first-seen key order, each with its commands' definitions in document order, and keeps the last `vkGetInstanceProcAddr` |
| Generator.Generator.constructor | create_vulkan_wrapper.py:52-57 | nothing written, `DEFINED_IDENTIFIERS` the 24 seed names, no handle names |
| Generator.Generator.ParseHandles | create_vulkan_wrapper.py:347-364 | appends the handles section and registers each handle name in both lists |
| Generator.Generator.ParseEnums | create_vulkan_wrapper.py:395-412 | appends one block per `<enums>` and registers each name |
| Generator.Generator.Resolve | create_vulkan_wrapper.py:464-491 | the recursive method leaves exactly the state the resolver specification gives |
| Generator.Generator.ParseStructuresAndUnions | create_vulkan_wrapper.py:493-503 | the two loops leave exactly the state of the structures stage |
| Generator.Generator.ParseCommands | create_vulkan_wrapper.py:511-556 | appends the families and then the entry point block; registers nothing |
| Generator.Generator.ParseExtensions | create_vulkan_wrapper.py:558-581 | appends the extensions section; registers nothing |

## Left out

- Reading `vk.xml` (`urlopen`, `open`, `ElementTree.fromstring`), closing files, and the command-line block are left out. The registry is an input value, and the output file is the string the generator's `output` field accumulates.
- The `print` of `"{t} was not found"` is modelled as appending `t` to the `notFound` list.
- `prepare_templates` works by reflection over the module's globals. The model states `expand(lstrip_t(t))` as `Templates.Prepare` and its properties. It writes each template in its prepared, filled-in form, with no proof tying that text to the raw literal.
- The imports and initialization templates are left out, as generated Python rather than generator logic. So are `MAKE_VERSION`, `load_functions` and the post-initialization template.
- `parse_basetypes`, `parse_flags` and `parse_funcpointers` are left out. Their registrations to `DEFINED_IDENTIFIERS` are therefore not in the model: the structures stage starts from whatever `defined` the earlier stages left. `export`'s fixed call order is left out for the same reason.
- `splitlines` is modelled with `\n` as the only line boundary. The other boundaries Python recognises (`\r`, `\x0b`, ...) are not modelled.
- The decimal attributes `offset` and `number` are taken as integers. `int()` parsing is not modelled.
- Structures.Selectable: an element's truthiness is modelled as "has members". A struct whose only children are comments counts as empty.
- Crash paths of the source are preconditions instead of modelled errors:
  - `map_ctypes` on an empty tail (CTypes.MapCtypes);
  - a command without parameters, and a missing `vkGetInstanceProcAddr` (Commands.AllReady, Generator.Generator.ParseCommands);
  - an enum member with neither value nor bitpos (Enums.AllReady);
  - an extension enum with nothing to write, or without a `require` enum (Extensions.AllReady);
  - a struct lookup that finds an empty struct and no union (Structures.RootReady).
- Structures.RootReady asks that lookup to succeed for every member type of the registry. The source only needs it for the types it actually looks up.
- Names.SnakeCaseOnlyInsertsUnderscores states that snake-casing keeps the case-folded letters and adds only underscores. It does not state the position of each underscore. The function's definition gives that position, one match at a time.
- Generator.GroupCommands and Commands.FamilyOrder follow Python 3.7+ insertion order for `commands_groups`. The arbitrary dict order of Python 2 is not modelled.
