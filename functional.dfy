/** The functional API: `create` turns a member specification into a class
    namespace, `_set_names` adds the naming entries, and `Meta.__new__`
    builds the type from the result. */
module Functional {
  import opened PyValues
  import opened AutoValues
  import opened Enums

  // ---------------------------------------------------------------------
  // str.replace(",", " ").split()

  /** `c.isspace()` for one character: the ASCII controls tab through
      carriage return and the four separators 0x1c-0x1f, and the Unicode
      spaces and line and paragraph separators. */
  predicate IsSpace(c: char) {
    var n := c as int;
    || n == 0x20
    || 0x09 <= n <= 0x0d
    || 0x1c <= n <= 0x1f
    || n == 0x85 || n == 0xa0 || n == 0x1680
    || 0x2000 <= n <= 0x200a
    || n == 0x2028 || n == 0x2029 || n == 0x202f || n == 0x205f || n == 0x3000
  }

  predicate NoSpace(w: string) {
    forall k :: 0 <= k < |w| ==> !IsSpace(w[k])
  }

  /** `s.replace(",", " ")`: no comma is left, and every other character
      stays where it was. */
  function ReplaceCommas(s: string): (r: string)
    ensures |r| == |s| && ',' !in r
    ensures forall k :: 0 <= k < |s| && s[k] != ',' ==> r[k] == s[k]
  {
    seq(|s|, k requires 0 <= k < |s| => if s[k] == ',' then ' ' else s[k])
  }

  /** The longest prefix of `s` without whitespace. */
  function Word(s: string): (w: string)
    ensures |w| <= |s| && w == s[..|w|] && NoSpace(w)
    ensures |w| < |s| ==> IsSpace(s[|w|])
  {
    if s == [] || IsSpace(s[0]) then [] else [s[0]] + Word(s[1..])
  }

  /** `s.split()`: the maximal runs of non-whitespace, in order. */
  function SplitWords(s: string): (ws: seq<string>)
    ensures forall k :: 0 <= k < |ws| ==> |ws[k]| > 0 && NoSpace(ws[k])
    decreases |s|
  {
    if s == [] then []
    else if IsSpace(s[0]) then SplitWords(s[1..])
    else
      var w := Word(s);
      [w] + SplitWords(s[|w|..])
  }

  /** `sep.join(ws)`. */
  function JoinWith(ws: seq<string>, sep: string): string {
    if ws == [] then []
    else if |ws| == 1 then ws[0]
    else ws[0] + sep + JoinWith(ws[1..], sep)
  }

  predicate AllSpace(sep: string) {
    forall k :: 0 <= k < |sep| ==> IsSpace(sep[k])
  }

  /** Words the text splits back into. */
  predicate PlainWords(ws: seq<string>) {
    forall k :: 0 <= k < |ws| ==> |ws[k]| > 0 && NoSpace(ws[k])
  }

  lemma {:induction false} SkipSpaces(sep: string, s: string)
    requires AllSpace(sep)
    ensures SplitWords(sep + s) == SplitWords(s)
  {
    if sep == [] {
      assert sep + s == s;
    } else {
      assert (sep + s)[1..] == sep[1..] + s;
      SkipSpaces(sep[1..], s);
    }
  }

  lemma {:induction false} WordOf(w: string, rest: string)
    requires NoSpace(w)
    requires rest == [] || IsSpace(rest[0])
    ensures Word(w + rest) == w
  {
    if w != [] {
      assert (w + rest)[1..] == w[1..] + rest;
      WordOf(w[1..], rest);
    }
  }

  /** Splitting undoes joining with any non-empty run of whitespace. */
  lemma {:induction false} SplitJoin(ws: seq<string>, sep: string)
    requires PlainWords(ws)
    requires |sep| > 0 && AllSpace(sep)
    ensures SplitWords(JoinWith(ws, sep)) == ws
  {
    if |ws| == 1 {
      WordOf(ws[0], []);
      assert ws[0] + [] == ws[0];
      assert ws[0][|ws[0]|..] == [];
    } else if |ws| > 1 {
      var rest := sep + JoinWith(ws[1..], sep);
      var s := ws[0] + rest;
      assert JoinWith(ws, sep) == s;
      WordOf(ws[0], rest);
      assert s[|ws[0]|..] == rest;
      SkipSpaces(sep, JoinWith(ws[1..], sep));
      SplitJoin(ws[1..], sep);
      assert ws == [ws[0]] + ws[1..];
    }
  }

  /** A text without commas is left alone by the comma replacement. */
  lemma NoCommaUnchanged(s: string)
    requires ',' !in s
    ensures ReplaceCommas(s) == s
  {
  }

  /** Replacing commas distributes over concatenation. */
  lemma ReplaceCommasAppend(a: string, b: string)
    ensures ReplaceCommas(a + b) == ReplaceCommas(a) + ReplaceCommas(b)
  {
  }

  /** What may stand between two names in a name string: a non-empty run
      of commas and whitespace, such as `" "`, `","` or `", "`. */
  predicate Separator(sep: string) {
    |sep| > 0 && forall k :: 0 <= k < |sep| ==> sep[k] == ',' || IsSpace(sep[k])
  }

  /** Replacing commas in names joined by `sep` only touches the separators. */
  lemma {:induction false} CommasInSeparators(ws: seq<string>, sep: string)
    requires forall k :: 0 <= k < |ws| ==> ',' !in ws[k]
    ensures ReplaceCommas(JoinWith(ws, sep)) == JoinWith(ws, ReplaceCommas(sep))
  {
    if |ws| == 1 {
      NoCommaUnchanged(ws[0]);
    } else if |ws| > 1 {
      CommasInSeparators(ws[1..], sep);
      ReplaceCommasAppend(ws[0] + sep, JoinWith(ws[1..], sep));
      ReplaceCommasAppend(ws[0], sep);
      NoCommaUnchanged(ws[0]);
    }
  }

  /** Comma-separated names read like whitespace-separated ones. */
  lemma CommasAreSpaces(sep: string)
    requires Separator(sep)
    ensures |ReplaceCommas(sep)| > 0 && AllSpace(ReplaceCommas(sep))
  {
  }

  // ---------------------------------------------------------------------
  // dict building

  /** Position of `key` among the keys, or `|ns|` when it is not there. */
  function KeyIndex(ns: Namespace, key: string): (r: nat)
    ensures r <= |ns|
    ensures r < |ns| ==> ns[r].0 == key
    ensures forall j :: 0 <= j < r ==> ns[j].0 != key
  {
    if ns == [] then 0
    else if ns[0].0 == key then 0
    else 1 + KeyIndex(ns[1..], key)
  }

  /** The first position with `key` is the only candidate. */
  lemma KeyIndexIs(ns: Namespace, key: string, i: nat)
    requires i <= |ns| && (i < |ns| ==> ns[i].0 == key)
    requires forall j :: 0 <= j < i ==> ns[j].0 != key
    ensures KeyIndex(ns, key) == i
  {
  }

  /** `ns.get(key)` reads the entry at the key's position. */
  lemma {:induction false} GetAtKeyIndex(ns: Namespace, key: string)
    ensures Get(ns, key) == if KeyIndex(ns, key) < |ns| then Some(ns[KeyIndex(ns, key)].1) else None
  {
    if ns != [] && ns[0].0 != key {
      GetAtKeyIndex(ns[1..], key);
    }
  }

  /** `d[k] = v`: an existing key keeps its position and takes the new
      value; a new key goes last. */
  function DictSet(d: Namespace, k: string, v: Decl): (r: Namespace)
    ensures Names(r) == if k in Names(d) then Names(d) else Names(d) + [k]
    ensures UniqueKeys(d) ==> UniqueKeys(r)
  {
    var i := KeyIndex(d, k);
    if i < |d| then
      assert Names(d[i := (k, v)]) == Names(d);
      d[i := (k, v)]
    else
      assert Names(d + [(k, v)]) == Names(d) + [k];
      assert forall j :: 0 <= j < |d| ==> d[j].0 != k;
      d + [(k, v)]
  }

  /** `d[k] = v` as a sequence: the entry at the key's position replaced,
      or one more entry at the end. */
  lemma DictSetShape(d: Namespace, k: string, v: Decl)
    ensures var i := KeyIndex(d, k);
            && |DictSet(d, k, v)| == (if i < |d| then |d| else |d| + 1)
            && DictSet(d, k, v)[i] == (k, v)
            && forall j :: 0 <= j < |d| && j != i ==> DictSet(d, k, v)[j] == d[j]
  {
  }

  /** After `d[k] = v`, looking up `k` gives `v`. */
  lemma DictSetGetSame(d: Namespace, k: string, v: Decl)
    ensures Get(DictSet(d, k, v), k) == Some(v)
  {
    DictSetShape(d, k, v);
    KeyIndexIs(DictSet(d, k, v), k, KeyIndex(d, k));
    GetAtKeyIndex(DictSet(d, k, v), k);
  }

  /** After `d[k] = v`, every other key reads as before. */
  lemma DictSetGetOther(d: Namespace, k: string, v: Decl, other: string)
    requires other != k
    ensures Get(DictSet(d, k, v), other) == Get(d, other)
  {
    var r := DictSet(d, k, v);
    var i := KeyIndex(d, k);
    var o := KeyIndex(d, other);
    DictSetShape(d, k, v);
    if o < |d| {
      assert r[o] == d[o] by { assert o != i; }
      KeyIndexIs(r, other, o);
    } else if i < |d| {
      KeyIndexIs(r, other, o);
    } else {
      KeyIndexIs(r, other, |r|);
    }
    GetAtKeyIndex(d, other);
    GetAtKeyIndex(r, other);
  }

  /** `dict(pairs)` and a dict comprehension: insert the pairs in order. */
  function DictFrom(pairs: Namespace): (r: Namespace)
    ensures UniqueKeys(r)
    ensures forall k :: k in Names(r) <==> k in Names(pairs)
  {
    if pairs == [] then []
    else
      var init := pairs[..|pairs| - 1];
      var last := pairs[|pairs| - 1];
      assert Names(pairs) == Names(init) + [last.0];
      DictSet(DictFrom(init), last.0, last.1)
  }

  /** The value a dict built from `pairs` holds for `k`: its last pair. */
  function LastValue(pairs: Namespace, k: string): Option<Decl> {
    if pairs == [] then None
    else if pairs[|pairs| - 1].0 == k then Some(pairs[|pairs| - 1].1)
    else LastValue(pairs[..|pairs| - 1], k)
  }

  /** A repeated key keeps its first position and its last value. */
  lemma {:induction false} DictFromGet(pairs: Namespace, k: string)
    ensures Get(DictFrom(pairs), k) == LastValue(pairs, k)
  {
    if pairs == [] {
    } else {
      var init := pairs[..|pairs| - 1];
      var last := pairs[|pairs| - 1];
      DictFromGet(init, k);
      if last.0 == k {
        DictSetGetSame(DictFrom(init), last.0, last.1);
      } else {
        DictSetGetOther(DictFrom(init), last.0, last.1, k);
      }
    }
  }

  /** Pairs with distinct keys make a dict in their own order. */
  lemma {:induction false} DictFromDistinct(pairs: Namespace)
    requires UniqueKeys(pairs)
    ensures DictFrom(pairs) == pairs
  {
    if pairs != [] {
      var init := pairs[..|pairs| - 1];
      var last := pairs[|pairs| - 1];
      assert UniqueKeys(init) by { assert forall j :: 0 <= j < |init| ==> init[j] == pairs[j]; }
      DictFromDistinct(init);
      assert last.0 !in Names(init) by {
        assert forall j :: 0 <= j < |init| ==> Names(init)[j] == pairs[j].0;
      }
      assert KeyIndex(init, last.0) == |init|;
      assert init + [last] == pairs;
    }
  }

  // ---------------------------------------------------------------------
  // The member specification

  /** One element of a member-name sequence: a plain value (a `str` is a
      name, or a two-character pair in the pairs form) or a 2-tuple whose
      first element is a `str`. */
  datatype Item = Plain(v: Value) | Pair(key: string, value: Decl)

  /** The second argument of `create`. */
  datatype MemberSpec =
    | NameString(text: string)   // "A B C" or "A, B, C"
    | Sequence(items: seq<Item>) // ["A", "B"] or [("A", 1), ("B", 2)]
    | Mapping(entries: Namespace)

  function ItemName(it: Item): Option<string> {
    match it
    case Plain(StrV(s)) => Some(s)
    case _ => None
  }

  /** The element names, when every element is a `str`. */
  function AllNames(items: seq<Item>): (r: Option<seq<string>>)
    ensures r.Some? <==> forall k :: 0 <= k < |items| ==> ItemName(items[k]).Some?
    ensures r.Some? ==> |r.value| == |items| && forall k :: 0 <= k < |items| ==> Some(r.value[k]) == ItemName(items[k])
  {
    if items == [] then Some([])
    else
      var rest := AllNames(items[1..]);
      if ItemName(items[0]).None? then None
      else if rest.None? then
        assert !ItemName(items[1..][0]).Some? || exists k :: 0 <= k < |items[1..]| && ItemName(items[1..][k]).None?;
        var k :| 0 <= k < |items[1..]| && ItemName(items[1..][k]).None?;
        assert items[k + 1] == items[1..][k];
        None
      else
        var r := [ItemName(items[0]).value] + rest.value;
        assert forall k :: 1 <= k < |items| ==> items[k] == items[1..][k - 1];
        Some(r)
  }

  /** `enumerate(names, start=start)` as name/value pairs. */
  function Numbered(names: seq<string>, start: int): (r: Namespace)
    ensures |r| == |names| && Names(r) == names
  {
    seq(|names|, k requires 0 <= k < |names| => (names[k], Val(IntV(start + k))))
  }

  /** What `dict()` makes of one element: a 2-tuple as it is, a string of
      two characters as a pair of one-character strings, and an error for
      a string of another length or a non-iterable. */
  function PairOf(it: Item): (r: Result<(string, Decl)>)
    ensures it.Pair? ==> r == Ok((it.key, it.value))
    ensures r.Err? ==> it.Plain?
  {
    match it
    case Pair(k, d) => Ok((k, d))
    case Plain(StrV(s)) =>
      if |s| == 2 then Ok(([s[0]], Val(StrV([s[1]])))) else Err(BadPairLength(|s|))
    case Plain(_) => Err(NotASequence)
  }

  /** The pairs of a sequence, or the error of its first bad element. */
  function PairsOf(items: seq<Item>): (r: Result<Namespace>)
    ensures r.Ok? ==> |r.value| == |items| && forall k :: 0 <= k < |items| ==> PairOf(items[k]) == Ok(r.value[k])
    ensures r.Err? ==> exists k :: 0 <= k < |items| && PairOf(items[k]) == Err(r.error) &&
                         forall j :: 0 <= j < k ==> PairOf(items[j]).Ok?
  {
    if items == [] then Ok([])
    else
      match PairOf(items[0])
      case Err(e) => Err(e)
      case Ok(p) =>
        match PairsOf(items[1..])
        case Err(e) =>
          assert forall j :: 1 <= j < |items| ==> items[j] == items[1..][j - 1];
          Err(e)
        case Ok(ps) =>
          assert forall j :: 1 <= j < |items| ==> items[j] == items[1..][j - 1];
          Ok([p] + ps)
  }

  /** The namespace `create` builds from the member specification: numbered
      names from a string or a sequence of strings (counting from `start`),
      `dict()` of a sequence of pairs, a mapping as it is. A later repeat of a
      name overwrites the value but keeps the first position; a non-`str`
      name after a first `str` makes `startswith` fail in `Meta.__new__`. */
  function SpecNamespace(spec: MemberSpec, start: int): (r: Result<Namespace>)
    ensures spec.Mapping? ==> r == Ok(spec.entries)
    ensures r.Ok? && !spec.Mapping? ==> UniqueKeys(r.value)
  {
    match spec
    case NameString(text) => Ok(DictFrom(Numbered(SplitWords(ReplaceCommas(text)), start)))
    case Sequence(items) =>
      if items == [] then Ok([])
      else if ItemName(items[0]).Some? then
        (match AllNames(items)
         case None => Err(NonStringName)
         case Some(names) => Ok(DictFrom(Numbered(names, start))))
      else
        (match PairsOf(items)
         case Err(e) => Err(e)
         case Ok(pairs) => Ok(DictFrom(pairs)))
    case Mapping(entries) => Ok(entries)
  }

  // ---------------------------------------------------------------------
  // _set_names

  /** The `__qualname__` `_set_names` writes: the given one, else
      `module.name` when a module is given, else the bare name. */
  function QualnameFor(qualname: Option<string>, moduleName: Option<string>, name: string): string {
    if qualname.Some? then qualname.value
    else if moduleName.Some? then moduleName.value + "." + name
    else name
  }

  /** The `__module__` `_set_names` writes: `module or None`. */
  function ModuleFor(moduleName: Option<string>): Value {
    if moduleName.Some? && moduleName.value != "" then StrV(moduleName.value) else NoneV
  }

  /** `_set_names(ns, qualname, module, name)`. */
  function SetNames(ns: Namespace, qualname: Option<string>, moduleName: Option<string>, name: string): (r: Namespace)
    ensures UniqueKeys(ns) ==> UniqueKeys(r)
  {
    DictSet(DictSet(ns, "__qualname__", Val(StrV(QualnameFor(qualname, moduleName, name)))),
            "__module__", Val(ModuleFor(moduleName)))
  }

  /** The type made from the namespace takes the `__qualname__` that
      `_set_names` wrote. */
  lemma SetNamesQualname(ns: Namespace, qualname: Option<string>, moduleName: Option<string>, name: string)
    ensures QualnameOf(SetNames(ns, qualname, moduleName, name), name) == QualnameFor(qualname, moduleName, name)
  {
    var q := Val(StrV(QualnameFor(qualname, moduleName, name)));
    var d1 := DictSet(ns, "__qualname__", q);
    DictSetGetSame(ns, "__qualname__", q);
    DictSetGetOther(d1, "__module__", Val(ModuleFor(moduleName)), "__qualname__");
  }

  /** The type made from the namespace takes the `__module__` that
      `_set_names` wrote. */
  lemma SetNamesModule(ns: Namespace, qualname: Option<string>, moduleName: Option<string>, name: string)
    ensures ModuleOf(SetNames(ns, qualname, moduleName, name)) == ModuleFor(moduleName)
  {
    var d1 := DictSet(ns, "__qualname__", Val(StrV(QualnameFor(qualname, moduleName, name))));
    DictSetGetSame(d1, "__module__", Val(ModuleFor(moduleName)));
  }

  /** Writing an underscore key never adds, removes or changes a member. */
  lemma DictSetUnderscore(d: Namespace, k: string, v: Decl)
    requires StartsWithUnderscore(k)
    ensures MemberAttrs(DictSet(d, k, v)) == MemberAttrs(d)
  {
    var i := KeyIndex(d, k);
    if i < |d| {
      var r := d[i := (k, v)];
      assert d == d[..i] + [d[i]] + d[i + 1..];
      assert r == d[..i] + [(k, v)] + d[i + 1..];
      MemberAttrsAppend(d[..i] + [d[i]], d[i + 1..]);
      MemberAttrsAppend(d[..i], [d[i]]);
      MemberAttrsAppend(d[..i] + [(k, v)], d[i + 1..]);
      MemberAttrsAppend(d[..i], [(k, v)]);
      assert MemberAttrs([d[i]]) == [] by { assert [d[i]][..0] == []; }
      assert MemberAttrs([(k, v)]) == [] by { assert [(k, v)][..0] == []; }
    } else {
      MemberAttrsAppend(d, [(k, v)]);
      assert MemberAttrs([(k, v)]) == [] by { assert [(k, v)][..0] == []; }
    }
  }

  /** `_set_names` leaves the members alone. */
  lemma SetNamesKeepsMembers(ns: Namespace, qualname: Option<string>, moduleName: Option<string>, name: string)
    ensures MemberAttrs(SetNames(ns, qualname, moduleName, name)) == MemberAttrs(ns)
  {
    var d1 := DictSet(ns, "__qualname__", Val(StrV(QualnameFor(qualname, moduleName, name))));
    DictSetUnderscore(ns, "__qualname__", Val(StrV(QualnameFor(qualname, moduleName, name))));
    DictSetUnderscore(d1, "__module__", Val(ModuleFor(moduleName)));
  }

  // ---------------------------------------------------------------------
  // create

  /** The namespace handed to `Meta`: the specification's, then `_set_names`. */
  function CreateNamespace(spec: MemberSpec, qualname: Option<string>, moduleName: Option<string>,
                           name: string, start: int): (r: Result<Namespace>)
    ensures r.Ok? && (spec.Mapping? ==> UniqueKeys(spec.entries)) ==> UniqueKeys(r.value)
  {
    match SpecNamespace(spec, start)
    case Err(e) => Err(e)
    case Ok(ns) => Ok(SetNames(ns, qualname, moduleName, name))
  }

  /** `bases = (type,) if type else ()`; a given type is seen through its
      `_generate_next_value_`, absent if it has none. */
  function Bases(base: Option<Option<Decl>>): (r: seq<Option<Decl>>)
    ensures |r| <= 1
  {
    if base.Some? then [base.value] else []
  }

  /** `create(name, spec, module=..., qualname=..., type=..., start=...)`. */
  method Create(enumName: string, spec: MemberSpec, moduleName: Option<string>, qualname: Option<string>,
                base: Option<Option<Decl>>, start: int)
    returns (r: Result<EnumType>, ghost calls: seq<HookCall>)
    requires spec.Mapping? ==> UniqueKeys(spec.entries)
    ensures CreateNamespace(spec, qualname, moduleName, enumName, start).Err? ==>
              r == Err(CreateNamespace(spec, qualname, moduleName, enumName, start).error)
    ensures CreateNamespace(spec, qualname, moduleName, enumName, start).Ok? ==>
              var ns := CreateNamespace(spec, qualname, moduleName, enumName, start).value;
              var hook := ResolveHook(ns, Bases(base));
              && (Assign(MemberAttrs(ns), hook).Err? ==> r == Err(Assign(MemberAttrs(ns), hook).error))
              && (Assign(MemberAttrs(ns), hook).Ok? ==>
                    var built := Assign(MemberAttrs(ns), hook).value;
                    && r.Ok? && fresh(r.value)
                    && (forall k :: 0 <= k < |r.value.members| ==> fresh(r.value.members[k]))
                    && IsBuiltFrom(r.value, enumName, ns, built)
                    && calls == built.calls)
  {
    var ns := CreateNamespace(spec, qualname, moduleName, enumName, start);
    if ns.Err? {
      return Err(ns.error), [];
    }
    r, calls := EnumType.New(enumName, Bases(base), ns.value);
  }

  // ---------------------------------------------------------------------
  // What the functional API promises

  /** Names with no repeats, separated by runs of commas and whitespace,
      are numbered in order from `start`. */
  lemma NamesAreNumbered(ws: seq<string>, sep: string, start: int)
    requires PlainWords(ws) && (forall k :: 0 <= k < |ws| ==> ',' !in ws[k])
    requires forall i, j :: 0 <= i < j < |ws| ==> ws[i] != ws[j]
    requires Separator(sep)
    ensures SpecNamespace(NameString(JoinWith(ws, sep)), start) == Ok(Numbered(ws, start))
  {
    CommasInSeparators(ws, sep);
    CommasAreSpaces(sep);
    SplitJoin(ws, ReplaceCommas(sep));
    DictFromDistinct(Numbered(ws, start));
  }

  /** A string of names means the same as the list of its words. */
  lemma StringIsList(text: string, start: int)
    ensures var ws := SplitWords(ReplaceCommas(text));
            SpecNamespace(NameString(text), start)
              == SpecNamespace(Sequence(seq(|ws|, k requires 0 <= k < |ws| => Plain(StrV(ws[k])))), start)
  {
    var ws := SplitWords(ReplaceCommas(text));
    var items := seq(|ws|, k requires 0 <= k < |ws| => Plain(StrV(ws[k])));
    if items != [] {
      var names := AllNames(items);
      assert names.Some?;
      assert names.value == ws;
    }
  }

  /** Valued names: every member is an explicit int from `start` on, so no
      hook is ever called, whatever the type argument. */
  lemma NumberedMembers(ws: seq<string>, start: int, hook: Option<Decl>)
    requires forall k :: 0 <= k < |ws| ==> !StartsWithUnderscore(ws[k])
    ensures var b := Assign(MemberAttrs(Numbered(ws, start)), hook);
            && b.Ok?
            && b.value.names == ws
            && |b.value.values| == |ws|
            && (forall k :: 0 <= k < |ws| ==> b.value.values[k] == IntV(start + k))
            && b.value.calls == []
  {
    var ns := Numbered(ws, start);
    assert forall k :: 0 <= k < |ns| ==> ns[k] == (ws[k], Val(IntV(start + k)));
    AllMembers(ns);
    AssignNoAutoOk(ns, hook);
    AssignShape(ns, hook);
    AssignKeepsExplicit(ns, hook);
    assert Names(ns) == ws;
  }

  /** A namespace without underscores or functions is all members. */
  lemma {:induction false} AllMembers(ns: Namespace)
    requires forall k :: 0 <= k < |ns| ==> IsMemberAttr(ns[k])
    ensures MemberAttrs(ns) == ns
  {
    if ns != [] {
      var init := ns[..|ns| - 1];
      assert forall k :: 0 <= k < |init| ==> init[k] == ns[k];
      AllMembers(init);
      assert init + [ns[|ns| - 1]] == ns;
    }
  }

  /** `create(name, "A B C", ...)` (or `"A,B,C"`, `"A, B, C"`) with distinct names that
      do not start with `_`: one member per name, in order, valued `start`,
      `start + 1`, ...; no hook call whatever the type argument; and the
      qualified name and module `_set_names` chose. */
  lemma CreateFromNames(ws: seq<string>, sep: string, start: int,
                        qualname: Option<string>, moduleName: Option<string>, name: string, hook: Option<Decl>)
    requires PlainWords(ws) && (forall k :: 0 <= k < |ws| ==> ',' !in ws[k])
    requires forall i, j :: 0 <= i < j < |ws| ==> ws[i] != ws[j]
    requires forall k :: 0 <= k < |ws| ==> !StartsWithUnderscore(ws[k])
    requires Separator(sep)
    ensures var ns := CreateNamespace(NameString(JoinWith(ws, sep)), qualname, moduleName, name, start);
            && ns.Ok?
            && QualnameOf(ns.value, name) == QualnameFor(qualname, moduleName, name)
            && ModuleOf(ns.value) == ModuleFor(moduleName)
            && var b := Assign(MemberAttrs(ns.value), hook);
            && b.Ok?
            && b.value.names == ws
            && |b.value.values| == |ws|
            && (forall k :: 0 <= k < |ws| ==> b.value.values[k] == IntV(start + k))
            && b.value.calls == []
  {
    NamesAreNumbered(ws, sep, start);
    var spec := Numbered(ws, start);
    SetNamesKeepsMembers(spec, qualname, moduleName, name);
    SetNamesQualname(spec, qualname, moduleName, name);
    SetNamesModule(spec, qualname, moduleName, name);
    NumberedMembers(ws, start, hook);
  }

  /** A blank name string (only whitespace and commas) and an empty
      sequence both give no members. */
  lemma BlankSpecs(text: string, start: int)
    requires forall k :: 0 <= k < |text| ==> text[k] == ',' || IsSpace(text[k])
    ensures SpecNamespace(NameString(text), start) == Ok([])
    ensures SpecNamespace(Sequence([]), start) == Ok([])
  {
    var t := ReplaceCommas(text);
    assert AllSpace(t);
    SkipSpaces(t, []);
    assert t + [] == t;
  }

  /** A sequence of names with no repeats is numbered in order from `start`. */
  lemma NameListNumbered(names: seq<string>, start: int)
    requires |names| > 0
    requires forall i, j :: 0 <= i < j < |names| ==> names[i] != names[j]
    ensures SpecNamespace(Sequence(seq(|names|, k requires 0 <= k < |names| => Plain(StrV(names[k])))), start)
              == Ok(Numbered(names, start))
  {
    var items := seq(|names|, k requires 0 <= k < |names| => Plain(StrV(names[k])));
    assert ItemName(items[0]).Some?;
    var got := AllNames(items);
    assert got.Some?;
    assert got.value == names;
    DictFromDistinct(Numbered(names, start));
  }

  /** A sequence of 2-tuples with distinct keys gives exactly those pairs,
      explicit values and order kept. */
  lemma PairListAsGiven(items: seq<Item>, start: int)
    requires forall k :: 0 <= k < |items| ==> items[k].Pair?
    requires forall i, j :: 0 <= i < j < |items| ==> items[i].key != items[j].key
    ensures var r := SpecNamespace(Sequence(items), start);
            && r.Ok? && |r.value| == |items|
            && forall k :: 0 <= k < |items| ==> r.value[k] == (items[k].key, items[k].value)
  {
    if items != [] {
      var ps := PairsOf(items);
      assert ps.Ok?;
      assert UniqueKeys(ps.value) by {
        assert forall k :: 0 <= k < |items| ==> ps.value[k] == (items[k].key, items[k].value);
      }
      DictFromDistinct(ps.value);
    }
  }
}
