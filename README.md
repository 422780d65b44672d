# basicenum, modelled in Dafny

`basicenum.compat` re-implements Python's `enum.Enum`. The Dafny model covers its parts:

- the `Member` objects;
- the `auto()` sentinel;
- the `Meta` metaclass, which turns a class namespace into members (filtering, auto-numbering, and the `_generate_next_value_` hook);
- the type protocol: `isinstance`, iteration, lookup by value with a per-type memo, lookup by name, and `in`;
- the functional `create` factory, including `_set_names`;
- the `unique` decorator.

The project has four modules.

- `PyValues` (`values.dfy`) holds the Python values a member can hold, and Python's `==` on them (`1 == True`, `isinstance(True, int)`). It also gives `repr()` of ints (with a read-back proof) and of strings, and the exceptions the core raises.
- `AutoValues` (`autovalues.dfy`) holds the class namespace as an ordered list of `(name, declaration)` entries. A declaration is `Auto` (what `auto()` returns), a plain value, or a function.
  - `MemberAttrs` is the generator that drops names starting with `_` and function values.
  - `ResolveHook` finds `custom_auto`.
  - `Assign` is the value that the member loop of `Meta.__new__` computes: `last_auto`, the member names and values in order, and every hook call made.
- `Enums` (`enums.dfy`) holds the mutable objects.
  - `Member` is a class with the `_cls` back-reference `owner`.
  - `EnumType` is a class whose fields are the registry `__members__` and the memo of `__call__`.
  - `EnumType.New` is `Meta.__new__` as an imperative method. It is proved to build exactly the registry that `Assign` describes.
- `Functional` (`functional.dfy`) is `create` and `_set_names`. It covers:
  - `str.replace(",", " ").split()` with Python's whitespace set;
  - Python `dict` semantics for comprehensions and for `dict(pairs)`: a key set again keeps its first position and takes the last value;
  - the three forms of member specification: a `str`, a sequence, or a mapping.

## Model

| member | source | states |
|---|---|---|
| Enums.Member.constructor | src/basicenum/compat.py:17-20 | a member records its type, name and value, and never changes afterwards |
| Enums.Member.Reduce | src/basicenum/compat.py:23-29 | the definition of `__reduce__`: the type and the name that `getattr` takes on unpickling; its property is stated by `UnpickleRoundTrip` |
| Enums.Member.Repr | src/basicenum/compat.py:31-32 | the definition of `__repr__`, `<Type.name: repr(value)>`; its properties are stated by `ReprShowsMember` |
| PyValues.Repr | src/basicenum/compat.py:32 | the definition of `repr()` on member values; its properties are stated by `IntReprRoundTrip` and `PlainStrRepr` |
| Enums.Member.Hash | src/basicenum/compat.py:34-40 | the definition of `__hash__` as the string hash (a parameter) of the name; its properties are stated by `HashByName` |
| Enums.Member.Equals | src/basicenum/compat.py:14-15 | the definition of member `==`, object identity inherited from `object`; its property is stated by `MembersNeverEqual` |
| Enums.UnpickleRoundTrip | src/basicenum/compat.py:23-29 | unpickling a registered member through `getattr(cls, name)`, the call `__reduce__` returns, gives back the very same object |
| Enums.ReprShowsMember | src/basicenum/compat.py:31-32 | the repr is `<Type.name: ...>` with the value's repr between `": "` and `">"`; for an int value that text reads back as the same int |
| PyValues.IntReprRoundTrip | src/basicenum/compat.py:32 | `repr` of every int, negatives included, parses back to that int |
| PyValues.PlainStrRepr | src/basicenum/compat.py:32 | `repr` of a plain printable string without quotes or backslashes is that string between single quotes |
| Enums.HashByName | src/basicenum/compat.py:34-40 | equal members hash alike, and two members with the same name hash alike whatever their type and value |
| Enums.MembersNeverEqual | src/basicenum/compat.py:14-15 | two different registry entries (in one type or two) are never `==`, even with the same name and value, because members compare by identity |
| AutoValues.Get | src/basicenum/compat.py:57 | `ns.get(key)`: nothing exactly when the key is absent, and otherwise the value of an entry with that key |
| AutoValues.MemberAttrs | src/basicenum/compat.py:65-69 | the entries kept are all non-function and not underscore-named, and there are no more of them than in the namespace |
| AutoValues.MemberAttrsKeeps | src/basicenum/compat.py:65-69 | every namespace entry that is neither a function nor underscore-named appears among the member names |
| AutoValues.MemberAttrsFrom | src/basicenum/compat.py:65-69 | every kept entry is an entry of the namespace, unchanged |
| AutoValues.MemberAttrsAppend | src/basicenum/compat.py:65-69 | the filter keeps definition order: filtering a concatenation is concatenating the filtered parts |
| AutoValues.MemberAttrsUnique | src/basicenum/compat.py:65-69 | a namespace with unique keys gives member names without repeats |
| AutoValues.FirstBaseHook | src/basicenum/compat.py:58-61 | the definition of the loop over the bases; its properties are stated by `FirstBaseHookSpec` |
| AutoValues.ResolveHook | src/basicenum/compat.py:57-61 | the definition of `custom_auto`; its properties are stated by `ResolveHookSpec` |
| AutoValues.FirstBaseHookSpec | src/basicenum/compat.py:58-61 | the hook comes from the first base that has the attribute, even when it is `None`; without such a base there is no hook |
| AutoValues.ResolveHookSpec | src/basicenum/compat.py:57-61 | the namespace's `_generate_next_value_` wins unless it is missing or `None`; otherwise the first base that has the attribute decides; otherwise there is no hook |
| Enums.EnumType.FindHook | src/basicenum/compat.py:57-61 | the imperative search over the bases yields exactly the hook that the resolution rule gives |
| AutoValues.CallHook | src/basicenum/compat.py:76-81 | the definition of calling `custom_auto`: a function answers, and anything else cannot be called; used by `HookCalls` and `AssignFailure` |
| AutoValues.Step | src/basicenum/compat.py:71-85 | the definition of one pass of the member loop; its properties are stated by `StepShape`, `AutoCounter` and `HookCalls` |
| AutoValues.Assign | src/basicenum/compat.py:70-86 | the definition of the whole member loop; its properties are stated by the `Assign...` lemmas, `AutoCounter`, `HookCalls` and `AssignFailure`, and `EnumType.New` is proved to build what it describes |
| AutoValues.AssignShape | src/basicenum/compat.py:70-86 | a successful member loop makes one member per kept attribute, with the attribute names in definition order |
| AutoValues.AssignKeepsExplicit | src/basicenum/compat.py:82-84 | every member given a plain value keeps exactly that value |
| AutoValues.AssignNoHookOk | src/basicenum/compat.py:71-74 | without a hook the loop never fails and calls nothing |
| AutoValues.AssignNoAutoOk | src/basicenum/compat.py:70-86 | with no `auto()` entries the loop never fails and never calls the hook, whatever the hook is |
| AutoValues.AutoCounter | src/basicenum/compat.py:56-83 | without a hook, each `auto()` member is the last explicit int (or bool) value before it (0 if there is none), plus the number of `auto()`s since that value, plus one |
| AutoValues.AssignPrefix | src/basicenum/compat.py:70-86 | the values of the first n members do not depend on what is declared after them |
| AutoValues.HookCalls | src/basicenum/compat.py:75-81 | with a hook, there is one call per `auto()` entry, in order, with arguments (name, 1, index among members, values of the earlier members), and its result is the member's value; `last_auto` ends as the last explicit int |
| AutoValues.AssignFailure | src/basicenum/compat.py:76-81 | the loop fails only when a hook exists and the call for some `auto()` entry fails, and that call's error is what is raised |
| AutoValues.AssignErrExtends | src/basicenum/compat.py:70-86 | once a hook call fails, later attributes cannot change the outcome |
| AutoValues.InterleaveInt | src/basicenum/compat.py:71-83 | `auto(), 5, auto()` numbers 1, 5, 6 |
| AutoValues.InterleaveStr | src/basicenum/compat.py:71-83 | `auto(), "5", auto()` numbers 1, "5", 2: a non-int does not reset the counter |
| AutoValues.HookByName | src/basicenum/compat.py:75-81 | with a hook that returns the name, `A = auto(); B = "HI"; C = auto()` gives "A", "HI", "C", and the calls are ("A", 1, 0, []) and ("C", 1, 2, ["A", "HI"]) |
| Enums.EnumType.New | src/basicenum/compat.py:52-89 | `Meta.__new__` fails with the error of the member loop when that loop fails. Otherwise every member is new: its registry names and values are those of the loop, the registry names are the filtered namespace names, qualname and module come from the namespace, the memo is empty, and the hook calls are the loop's |
| Enums.EnumType.BuildMembers | src/basicenum/compat.py:65-86 | the imperative member loop produces new members owned by the type, whose names, values and hook calls are those of the functional loop, or fails with its error |
| Enums.EnumType.NextValue | src/basicenum/compat.py:71-83 | one step of the loop computes the value, the new `last_auto` and the hook call of that step |
| Enums.EnumType.constructor | src/basicenum/compat.py:54-55 | a new type has the given names, no members and an empty memo |
| Enums.QualnameOf | src/basicenum/compat.py:54 | the definition of the type's qualname: the namespace's `__qualname__` when it is a str, else the name; stated of the result by `EnumType.New` and `SetNamesQualname` |
| Enums.ModuleOf | src/basicenum/compat.py:54 | the definition of the type's `__module__`, taken from the namespace; stated of the result by `EnumType.New` and `SetNamesModule` |
| Enums.EnumType.InstanceCheck | src/basicenum/compat.py:91-93 | the definition of `isinstance`: the object is a member whose `_cls` is this type; its properties are stated by `ContainsOwnMembers` and `ForeignMemberNotContained` |
| Enums.EnumType.Contains | src/basicenum/compat.py:114-116 | the definition of `in` as the `isinstance` test; its properties are stated by `ContainsOwnMembers` and `ForeignMemberNotContained` |
| Enums.ContainsOwnMembers | src/basicenum/compat.py:91-116 | every registered member is an instance and is `in` its type; a plain value never is, even one a member holds |
| Enums.ForeignMemberNotContained | src/basicenum/compat.py:91-116 | a member of another type is neither an instance nor contained, whatever its name and value |
| Enums.EnumType.Iter | src/basicenum/compat.py:95-97 | iteration yields the registry's own member objects, owned by the type, in registry order |
| Enums.EnumType.Lookup | src/basicenum/compat.py:103-108 | succeeds exactly when some member value is `==` to the argument, and then returns the first such member in registry order; otherwise ValueError carrying the value |
| Enums.EnumType.Call | src/basicenum/compat.py:99-108 | `T(v)`: the same answer as the scan; a success is remembered in the type's memo, and a failure is not |
| Enums.CallTwice | src/basicenum/compat.py:99-102 | calling a type twice with one value gives the same result |
| Enums.CallPerType | src/basicenum/compat.py:99-102 | the memo is per type: each type answers with its own member, and two types never share one |
| Enums.EnumType.GetItem | src/basicenum/compat.py:110-112 | `T[name]` succeeds exactly for registry names and returns the member of that name; otherwise KeyError carrying the name |
| Enums.GetItemOwnName | src/basicenum/compat.py:110-112 | looking up a member's own name gives back that member |
| Enums.EnumType.GetAttr | src/basicenum/compat.py:86 | the attribute set for each member name is that member; a name that is not a member name is not modelled (see `## Left out`) |
| Functional.DictSet | src/basicenum/compat.py:127-132 | `ns[k] = v` keeps a dict a dict: an existing key stays where it is, a new one is appended, and keys stay unique |
| Functional.SetNames | src/basicenum/compat.py:124-132 | `_set_names` keeps the keys unique; what it writes is stated by `SetNamesQualname` and `SetNamesModule` |
| Functional.SetNamesQualname | src/basicenum/compat.py:124-131 | the qualname `create` gives the type is the given qualname, else `module.name`, else the name |
| Functional.SetNamesModule | src/basicenum/compat.py:132 | `__module__` is the given module, with `""` and no module both giving `None` |
| Functional.SetNamesKeepsMembers | src/basicenum/compat.py:124-132 | the two names added never become members or change which members there are |
| Functional.DictSetGetSame | src/basicenum/compat.py:127-132 | after `ns[k] = v`, reading `k` gives `v` |
| Functional.DictSetGetOther | src/basicenum/compat.py:127-132 | after `ns[k] = v`, every other key reads as before |
| Functional.ReplaceCommas | src/basicenum/compat.py:143 | `replace(",", " ")` leaves no comma, keeps the length, and leaves every other character where it was |
| Functional.SplitWords | src/basicenum/compat.py:143 | `split()` gives non-empty words with no whitespace in them |
| Functional.SplitJoin | src/basicenum/compat.py:143 | `split()` inverts joining whitespace-free words with any non-empty whitespace separator |
| Functional.CommasInSeparators | src/basicenum/compat.py:143 | replacing commas in names without commas joined by any separator changes only the separators |
| Functional.CommasAreSpaces | src/basicenum/compat.py:143 | a separator of commas and whitespace becomes a non-empty run of whitespace, which `split()` undoes |
| Functional.NamesAreNumbered | src/basicenum/compat.py:139-145 | a string of distinct names separated by spaces or commas gives those names in order, numbered from `start`, for any separator made of commas and whitespace (`" "`, `","`, `", "`, ...) |
| Functional.StringIsList | src/basicenum/compat.py:139-150 | a string of names means the same as the list of its words |
| Functional.BlankSpecs | src/basicenum/compat.py:139-154 | a blank string (only whitespace and commas) and an empty sequence both give no members |
| Functional.NameListNumbered | src/basicenum/compat.py:149-150 | a list of distinct names gives them in order, numbered from `start` |
| Functional.PairListAsGiven | src/basicenum/compat.py:151-152 | a list of 2-tuples with distinct keys gives exactly those pairs, in order, with their explicit values |
| Functional.AllNames | src/basicenum/compat.py:149-150 | the names of the items can be read exactly when every item is a string, and they are read in order |
| Functional.Numbered | src/basicenum/compat.py:140-150 | `enumerate(names, start=start)` as entries: one per name, with the names in order; valued from `start` in `NumberedMembers` |
| Functional.PairOf | src/basicenum/compat.py:152 | what `dict()` makes of one element: a 2-tuple as it is, and an error only for an element that is not a 2-tuple |
| Functional.PairsOf | src/basicenum/compat.py:152 | `dict()` takes each element as a pair in order, or fails with the error of the first element that is not a pair |
| Functional.DictFrom | src/basicenum/compat.py:150-152 | building a dict gives unique keys and exactly the keys of its input |
| Functional.DictFromGet | src/basicenum/compat.py:150-152 | in a built dict, each key holds the value it was given last |
| Functional.DictFromDistinct | src/basicenum/compat.py:150-152 | pairs without a repeated key come out unchanged, in order |
| Functional.SpecNamespace | src/basicenum/compat.py:139-156 | a mapping is used as given; a string or sequence that is accepted gives a namespace with unique keys |
| Functional.CreateNamespace | src/basicenum/compat.py:139-158 | the namespace `create` hands to `Meta`, with unique keys whenever the given mapping has them |
| Functional.Bases | src/basicenum/compat.py:160-163 | `(type,) if type else ()`: at most one base |
| Functional.NumberedMembers | src/basicenum/compat.py:140-150 | names numbered from `start` become members with exactly those int values, and no hook is called whatever the type argument |
| Functional.CreateFromNames | src/basicenum/compat.py:135-165 | `create(name, "A B C", ...)` (or `"A,B,C"`, `"A, B, C"`) with distinct names gives one member per name, numbered from `start`, with no hook call and the qualname and module `_set_names` chose |
| Functional.Create | src/basicenum/compat.py:135-165 | `create` fails when the member specification is rejected; otherwise it is `Meta` applied to the namespace built and named, with the bases taken from `type` |
| Enums.Unique | src/basicenum/compat.py:168-181 | returns the type itself exactly when no member value is `==` to an earlier one; otherwise ValueError naming the type and the first value, in registry order, that repeats an earlier one |
| Enums.FirstMatchIsFirstIndex | src/basicenum/compat.py:104-106 | a scan stopping at the first match stops at the position the lookup specification names |
| PyValues.Eq | src/basicenum/compat.py:105 | the definition of `==` on member values: numbers compare by value across `int` and `bool`; its properties are stated by `EqIsEquivalence` and `OneEqualsTrue` |
| Enums.InList | src/basicenum/compat.py:176 | `value in seen`: true exactly when some element is `==` to the value |
| PyValues.EqIsEquivalence | src/basicenum/compat.py:105 | the `==` that lookup uses is reflexive, symmetric and transitive on member values |

## Left out

- `auto()` is the `Auto` declaration itself. Its identity test against the sentinel object is a constructor test.
- `type.__new__` and `setattr` are not modelled. The type records its name, qualname, module and registry; an attribute lookup for a member name is `GetAttr`.
- Class attributes other than members are not modelled. Neither are bases that are real classes: a base is what `getattr(base, "_generate_next_value_")` finds on it.
- Enums.EnumType.Call: only the `functools.cache` memo per type is modelled. Its hashing quirks are not: `1` and `True` share a cache key, and unhashable values raise `TypeError`.
- Enums.EnumType.Call: the memo is keyed by `Value` equality, so a value `==` to an earlier one but of another type (`True` after `1`) scans again. It still finds the same member.
- The pickle library itself is not modelled. Only what `__reduce__` returns and what unpickling then calls are.
- Enums.Member.Hash: the interpreter's string hash is a parameter.
- PyValues.Repr: characters outside ASCII print as themselves. A plain object prints as `<object object>` without its address.
- Member values are ints, bools, strs, `None` and identity-compared objects. Floats, tuples and objects with a custom `__eq__` are not modelled.
- Functional.PairOf: `dict()` elements are 2-tuples with a `str` key, or strings. Tuples of other lengths and non-`str` keys are not modelled.
- Functional.SetNames: `_set_names` writes into the caller's mapping. The model works on a copy, so that caller-visible mutation is not captured.
- `qualname` and `module` arguments that are not strings are not modelled.
- Enums.Unique: the error message shows the type's qualname in place of the type's repr.
- A hook is a Dafny function from its arguments to a result or an exception. Hooks with side effects or state are not modelled.
- The ghost `calls` results of `EnumType.New`, `BuildMembers` and `Create` only record the hook calls made. They bear no runtime meaning.
- Enums.EnumType.BuildMembers: on a hook failure the trace ends with the failing call (as `NextValue` states), but the contracts of `BuildMembers`, `New` and `Create` describe the trace only when construction succeeds.
- Enums.EnumType.GetAttr: `getattr(cls, n)` for a name that is not a member name (a function or `_`-name of the class body, `__members__`, an attribute of `type`) is not modelled; the model answers AttributeError there.
- Enums.ModuleOf: a namespace without `__module__` gives `None`, where `type.__new__` would take the caller's module. A class statement always sets `__module__`, and `create` always does through `_set_names`, so neither reaches that case.
- Enums.EnumType.Contains follows the code, not the docstring: the docstring says "member or value", but the code tests membership only.
