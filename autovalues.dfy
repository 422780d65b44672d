/** The declaration side of an enum: the class namespace, which of its
    attributes become members, where the `_generate_next_value_` hook comes
    from, and which value every attribute gets. `Assign` is the value that
    the construction loop of `Meta.__new__` computes step by step. */
module AutoValues {
  import opened PyValues

  /** The arguments of one `_generate_next_value_(name, start, count, last_values)` call. */
  datatype HookCall = HookCall(name: string, start: int, count: nat, lastValues: seq<Value>)

  /** A generation hook: what it returns (or raises) for each argument tuple. */
  type Hook = HookCall -> Result<Value>

  /** What a class body binds a name to: the `auto()` sentinel, a plain
      value, or a function (seen through how it answers a hook call). */
  datatype Decl = Auto | Val(v: Value) | Func(f: Hook)

  /** A class namespace, in definition order. */
  type Namespace = seq<(string, Decl)>

  const GenerateNextValue: string := "_generate_next_value_"

  function Names(ns: Namespace): (r: seq<string>)
    ensures |r| == |ns|
    ensures forall k :: 0 <= k < |ns| ==> r[k] == ns[k].0
  {
    seq(|ns|, k requires 0 <= k < |ns| => ns[k].0)
  }

  /** The keys of a dict are distinct. */
  predicate UniqueKeys(ns: Namespace) {
    forall i, j :: 0 <= i < j < |ns| ==> ns[i].0 != ns[j].0
  }

  /** `ns.get(key)`. */
  function Get(ns: Namespace, key: string): (r: Option<Decl>)
    ensures r.None? <==> key !in Names(ns)
    ensures r.Some? ==> exists k :: 0 <= k < |ns| && ns[k].0 == key && ns[k].1 == r.value
  {
    if ns == [] then None
    else if ns[0].0 == key then Some(ns[0].1)
    else
      assert Names(ns) == [ns[0].0] + Names(ns[1..]);
      var r := Get(ns[1..], key);
      assert r.Some? ==> exists k :: 1 <= k < |ns| && ns[k].0 == key && ns[k].1 == r.value by {
        if r.Some? {
          var k :| 0 <= k < |ns[1..]| && ns[1..][k].0 == key && ns[1..][k].1 == r.value;
          assert ns[k + 1] == ns[1..][k];
        }
      }
      r
  }

  // ---------------------------------------------------------------------
  // Which attributes become members

  /** `name.startswith("_")`. */
  predicate StartsWithUnderscore(name: string) {
    |name| > 0 && name[0] == '_'
  }

  /** The filter of `members_iter`: not a function and not an underscore name. */
  predicate IsMemberAttr(entry: (string, Decl)) {
    !entry.1.Func? && !StartsWithUnderscore(entry.0)
  }

  /** No entry is a function: every entry is a member candidate's value. */
  predicate NoFuncs(attrs: Namespace) {
    forall k :: 0 <= k < |attrs| ==> !attrs[k].1.Func?
  }

  /** The attributes `members_iter` yields, in namespace order. */
  function MemberAttrs(ns: Namespace): (r: Namespace)
    ensures |r| <= |ns|
    ensures forall k :: 0 <= k < |r| ==> IsMemberAttr(r[k])
    ensures NoFuncs(r)
  {
    if ns == [] then []
    else
      var last := ns[|ns| - 1];
      MemberAttrs(ns[..|ns| - 1]) + (if IsMemberAttr(last) then [last] else [])
  }

  /** Filtering commutes with concatenation: the relative order of the
      surviving attributes is the namespace order. */
  lemma {:induction false} MemberAttrsAppend(a: Namespace, b: Namespace)
    ensures MemberAttrs(a + b) == MemberAttrs(a) + MemberAttrs(b)
    decreases |b|
  {
    if b == [] {
      assert a + b == a;
    } else {
      var b' := b[..|b| - 1];
      assert (a + b)[..|a + b| - 1] == a + b';
      assert (a + b)[|a + b| - 1] == b[|b| - 1];
      MemberAttrsAppend(a, b');
    }
  }

  /** Every namespace entry that passes the filter becomes a member name. */
  lemma {:induction false} MemberAttrsKeeps(ns: Namespace)
    ensures forall i :: 0 <= i < |ns| && IsMemberAttr(ns[i]) ==> ns[i].0 in Names(MemberAttrs(ns))
  {
    if ns != [] {
      var init := ns[..|ns| - 1];
      var last := ns[|ns| - 1];
      MemberAttrsKeeps(init);
      var r := MemberAttrs(ns);
      var ri := MemberAttrs(init);
      assert r == ri + (if IsMemberAttr(last) then [last] else []);
      forall i | 0 <= i < |ns| && IsMemberAttr(ns[i])
        ensures ns[i].0 in Names(r)
      {
        if i < |ns| - 1 {
          assert init[i] == ns[i];
          var k :| 0 <= k < |ri| && Names(ri)[k] == ns[i].0;
          assert r[k] == ri[k];
          assert Names(r)[k] == ns[i].0;
        } else {
          assert Names(r)[|r| - 1] == ns[i].0;
        }
      }
    }
  }

  /** Every member attribute is an entry of the namespace. */
  lemma {:induction false} MemberAttrsFrom(ns: Namespace)
    ensures forall k :: 0 <= k < |MemberAttrs(ns)| ==> MemberAttrs(ns)[k] in ns
  {
    if ns != [] {
      var init := ns[..|ns| - 1];
      var last := ns[|ns| - 1];
      MemberAttrsFrom(init);
      var r := MemberAttrs(ns);
      var ri := MemberAttrs(init);
      assert r == ri + (if IsMemberAttr(last) then [last] else []);
      forall k | 0 <= k < |r| ensures r[k] in ns {
        if k < |ri| {
          assert r[k] == ri[k] && ri[k] in init;
        }
      }
    }
  }

  /** When the namespace is a dict, no two members share a name. */
  lemma {:induction false} MemberAttrsUnique(ns: Namespace)
    requires UniqueKeys(ns)
    ensures UniqueKeys(MemberAttrs(ns))
  {
    if ns != [] {
      var init := ns[..|ns| - 1];
      var last := ns[|ns| - 1];
      assert UniqueKeys(init) by { assert forall k :: 0 <= k < |init| ==> init[k] == ns[k]; }
      MemberAttrsUnique(init);
      MemberAttrsFrom(init);
      var ri := MemberAttrs(init);
      assert MemberAttrs(ns) == ri + (if IsMemberAttr(last) then [last] else []);
      forall k | 0 <= k < |ri| ensures ri[k].0 != last.0 {
        var i :| 0 <= i < |init| && init[i] == ri[k];
        assert ns[i] == init[i];
      }
    }
  }



  // ---------------------------------------------------------------------
  // Where the hook comes from

  /** A looked-up attribute that is missing or is Python's `None`. */
  predicate IsNoneObject(o: Option<Decl>) {
    o.None? || (o.value.Val? && o.value.v == NoneV)
  }

  /** A found attribute as the value of `custom_auto`; `None` stands for Python's `None`. */
  function AsHook(o: Option<Decl>): (r: Option<Decl>)
    ensures r.None? <==> IsNoneObject(o)
    ensures r.Some? ==> r == o
  {
    if IsNoneObject(o) then None else o
  }

  /** The loop over the bases: the attribute of the first base that has one.
      `bases[i]` is what `getattr(base, "_generate_next_value_")` finds on
      base `i`, absent when `hasattr` is false. */
  function FirstBaseHook(bases: seq<Option<Decl>>): Option<Decl> {
    if bases == [] then None
    else if bases[0].Some? then AsHook(bases[0])
    else FirstBaseHook(bases[1..])
  }

  /** `custom_auto`: the hook in the class namespace, unless that is absent or
      `None`, in which case the first base that has the attribute decides. */
  function ResolveHook(ns: Namespace, bases: seq<Option<Decl>>): Option<Decl> {
    var local := Get(ns, GenerateNextValue);
    if !IsNoneObject(local) then local else FirstBaseHook(bases)
  }

  lemma {:induction false} FirstBaseHookSpec(bases: seq<Option<Decl>>)
    ensures forall i :: 0 <= i < |bases| && bases[i].Some? && (forall j :: 0 <= j < i ==> bases[j].None?) ==>
              FirstBaseHook(bases) == AsHook(bases[i])
    ensures (forall i :: 0 <= i < |bases| ==> bases[i].None?) ==> FirstBaseHook(bases).None?
  {
    if bases != [] {
      FirstBaseHookSpec(bases[1..]);
      forall i | 0 <= i < |bases| && bases[i].Some? && (forall j :: 0 <= j < i ==> bases[j].None?)
        ensures FirstBaseHook(bases) == AsHook(bases[i])
      {
        if i > 0 {
          assert bases[1..][i - 1] == bases[i];
          assert forall j :: 0 <= j < i - 1 ==> bases[1..][j] == bases[j + 1];
        }
      }
      if forall i :: 0 <= i < |bases| ==> bases[i].None? {
        assert bases[0].None?;
        assert forall i :: 0 <= i < |bases[1..]| ==> bases[1..][i] == bases[i + 1];
      }
    }
  }

  /** The hook resolution rule: the namespace first, then the bases in order. */
  lemma ResolveHookSpec(ns: Namespace, bases: seq<Option<Decl>>)
    ensures !IsNoneObject(Get(ns, GenerateNextValue)) ==>
              ResolveHook(ns, bases) == Get(ns, GenerateNextValue)
    ensures IsNoneObject(Get(ns, GenerateNextValue)) ==>
              forall i :: 0 <= i < |bases| && bases[i].Some? && (forall j :: 0 <= j < i ==> bases[j].None?) ==>
                ResolveHook(ns, bases) == AsHook(bases[i])
    ensures IsNoneObject(Get(ns, GenerateNextValue)) && (forall i :: 0 <= i < |bases| ==> bases[i].None?) ==>
              ResolveHook(ns, bases).None?
  {
    FirstBaseHookSpec(bases);
  }

  // ---------------------------------------------------------------------
  // Value assignment

  /** Calling the hook object: only a function can be called. */
  function CallHook(hook: Decl, c: HookCall): Result<Value> {
    match hook
    case Func(f) => f(c)
    case _ => Err(NotCallable)
  }

  /** The loop state after some attributes: `last_auto`, the members built so
      far (names and values, in order) and the hook calls made. */
  datatype Built = Built(lastAuto: int, names: seq<string>, values: seq<Value>, calls: seq<HookCall>)

  /** One iteration of the loop in `Meta.__new__`, for attribute `name`
      declared as `d`, the index being the number of members built so far. */
  function Step(b: Built, name: string, d: Decl, hook: Option<Decl>): Result<Built>
    requires !d.Func?
  {
    match d
    case Auto =>
      if hook.None? then
        Ok(Built(b.lastAuto + 1, b.names + [name], b.values + [IntV(b.lastAuto + 1)], b.calls))
      else
        var c := HookCall(name, 1, |b.values|, b.values);
        (match CallHook(hook.value, c)
         case Err(e) => Err(e)
         case Ok(v) => Ok(Built(b.lastAuto, b.names + [name], b.values + [v], b.calls + [c])))
    case Val(v) =>
      Ok(Built(if IsInt(v) then IntOf(v) else b.lastAuto, b.names + [name], b.values + [v], b.calls))
  }

  /** The loop of `Meta.__new__` over the member attributes, from
      `last_auto = 0` and no members. */
  function Assign(attrs: Namespace, hook: Option<Decl>): Result<Built>
    requires NoFuncs(attrs)
  {
    if attrs == [] then Ok(Built(0, [], [], []))
    else
      var last := attrs[|attrs| - 1];
      match Assign(attrs[..|attrs| - 1], hook)
      case Err(e) => Err(e)
      case Ok(b) => Step(b, last.0, last.1, hook)
  }

  /** One more attribute is one more `Step`, unless the loop already failed. */
  lemma AssignSnoc(attrs: Namespace, hook: Option<Decl>)
    requires NoFuncs(attrs) && attrs != []
    ensures NoFuncs(attrs[..|attrs| - 1])
    ensures Assign(attrs[..|attrs| - 1], hook).Err? ==>
              Assign(attrs, hook) == Assign(attrs[..|attrs| - 1], hook)
    ensures Assign(attrs[..|attrs| - 1], hook).Ok? ==>
              Assign(attrs, hook)
                == Step(Assign(attrs[..|attrs| - 1], hook).value, attrs[|attrs| - 1].0, attrs[|attrs| - 1].1, hook)
  {
    var init := attrs[..|attrs| - 1];
    assert NoFuncs(init) by { assert forall k :: 0 <= k < |init| ==> init[k] == attrs[k]; }
  }

  /** A successful step adds one member under its own name, keeps the
      earlier values, and keeps an explicit value as it is. */
  lemma StepShape(b: Built, name: string, d: Decl, hook: Option<Decl>)
    requires !d.Func? && Step(b, name, d, hook).Ok?
    ensures Step(b, name, d, hook).value.names == b.names + [name]
    ensures |Step(b, name, d, hook).value.values| == |b.values| + 1
    ensures Step(b, name, d, hook).value.values[..|b.values|] == b.values
    ensures d.Val? ==> Step(b, name, d, hook).value.values[|b.values|] == d.v
    ensures Step(b, name, d, hook).value.calls
              == b.calls + (if d.Auto? && hook.Some? then [HookCall(name, 1, |b.values|, b.values)] else [])
    ensures d.Auto? && hook.Some? ==>
              && Step(b, name, d, hook).value.lastAuto == b.lastAuto
              && CallHook(hook.value, HookCall(name, 1, |b.values|, b.values))
                   == Ok(Step(b, name, d, hook).value.values[|b.values|])
    ensures d.Val? ==> Step(b, name, d, hook).value.lastAuto == if IsInt(d.v) then IntOf(d.v) else b.lastAuto
    ensures d.Auto? && hook.None? ==>
              && Step(b, name, d, hook).value.lastAuto == b.lastAuto + 1
              && Step(b, name, d, hook).value.values[|b.values|] == IntV(b.lastAuto + 1)
  {
  }

  /** Once a hook has failed, later attributes are never looked at. */
  lemma {:induction false} AssignErrExtends(a: Namespace, b: Namespace, hook: Option<Decl>)
    requires NoFuncs(a) && NoFuncs(a + b)
    requires Assign(a, hook).Err?
    ensures Assign(a + b, hook) == Assign(a, hook)
    decreases |b|
  {
    assert forall k :: 0 <= k < |a| ==> a[k] == (a + b)[k];
    if b == [] {
      assert a + b == a;
    } else {
      var b' := b[..|b| - 1];
      assert (a + b)[..|a + b| - 1] == a + b';
      assert forall k :: 0 <= k < |a + b'| ==> (a + b')[k] == (a + b)[k];
      AssignErrExtends(a, b', hook);
    }
  }

  /** Every member attribute yields one member, under its own name. */
  lemma {:induction false} AssignShape(attrs: Namespace, hook: Option<Decl>)
    requires NoFuncs(attrs)
    requires Assign(attrs, hook).Ok?
    ensures Assign(attrs, hook).value.names == Names(attrs)
    ensures |Assign(attrs, hook).value.values| == |attrs|
  {
    if attrs != [] {
      var init := attrs[..|attrs| - 1];
      var last := attrs[|attrs| - 1];
      AssignSnoc(attrs, hook);
      AssignShape(init, hook);
      StepShape(Assign(init, hook).value, last.0, last.1, hook);
      assert Names(attrs) == Names(init) + [last.0];
    }
  }

  /** An explicit value is kept as it is. */
  lemma {:induction false} AssignKeepsExplicit(attrs: Namespace, hook: Option<Decl>)
    requires NoFuncs(attrs)
    requires Assign(attrs, hook).Ok?
    ensures |Assign(attrs, hook).value.values| == |attrs|
    ensures forall k :: 0 <= k < |attrs| && attrs[k].1.Val? ==> Assign(attrs, hook).value.values[k] == attrs[k].1.v
  {
    AssignShape(attrs, hook);
    if attrs != [] {
      var init := attrs[..|attrs| - 1];
      var last := attrs[|attrs| - 1];
      AssignSnoc(attrs, hook);
      AssignKeepsExplicit(init, hook);
      var bi := Assign(init, hook).value;
      StepShape(bi, last.0, last.1, hook);
      var vs := Assign(attrs, hook).value.values;
      forall k | 0 <= k < |attrs| && attrs[k].1.Val? ensures vs[k] == attrs[k].1.v {
        if k < |init| {
          assert init[k] == attrs[k];
          assert vs[k] == vs[..|bi.values|][k];
        }
      }
    }
  }

  /** Without a hook the loop never fails. */
  lemma {:induction false} AssignNoHookOk(attrs: Namespace)
    requires NoFuncs(attrs)
    ensures Assign(attrs, None).Ok?
    ensures Assign(attrs, None).value.calls == []
  {
    if attrs != [] {
      var init := attrs[..|attrs| - 1];
      assert NoFuncs(init) by { assert forall k :: 0 <= k < |init| ==> init[k] == attrs[k]; }
      AssignNoHookOk(init);
    }
  }

  /** Without any `auto()` the hook is never called and the loop never fails. */
  lemma {:induction false} AssignNoAutoOk(attrs: Namespace, hook: Option<Decl>)
    requires NoFuncs(attrs)
    requires forall k :: 0 <= k < |attrs| ==> !attrs[k].1.Auto?
    ensures Assign(attrs, hook).Ok?
    ensures Assign(attrs, hook).value.calls == []
  {
    if attrs != [] {
      var init := attrs[..|attrs| - 1];
      AssignSnoc(attrs, hook);
      assert forall k :: 0 <= k < |init| ==> init[k] == attrs[k];
      AssignNoAutoOk(init, hook);
    }
  }

  // ---------------------------------------------------------------------
  // The auto counter, in closed form

  predicate IsIntDecl(d: Decl) {
    d.Val? && IsInt(d.v)
  }

  /** Position of the last explicit `int` (or `bool`), or -1 when there is none. */
  function LastIntIndex(attrs: Namespace): (r: int)
    ensures -1 <= r < |attrs|
    ensures r >= 0 ==> IsIntDecl(attrs[r].1)
    ensures forall k :: r < k < |attrs| ==> !IsIntDecl(attrs[k].1)
  {
    if attrs == [] then -1
    else if IsIntDecl(attrs[|attrs| - 1].1) then |attrs| - 1
    else LastIntIndex(attrs[..|attrs| - 1])
  }

  /** The number of `auto()` attributes. */
  function AutoCount(attrs: Namespace): (r: nat)
    ensures r <= |attrs|
  {
    if attrs == [] then 0
    else AutoCount(attrs[..|attrs| - 1]) + (if attrs[|attrs| - 1].1.Auto? then 1 else 0)
  }

  /** `last_auto` after some attributes, without a hook: the last explicit
      int (0 if none) plus the number of `auto()`s declared after it. */
  function Counter(attrs: Namespace): int {
    var j := LastIntIndex(attrs);
    if j < 0 then AutoCount(attrs) else IntOf(attrs[j].1.v) + AutoCount(attrs[j + 1..])
  }

  /** The last explicit int before the point, or 0: all a hook-driven
      construction ever leaves in `last_auto`. */
  function LastExplicitInt(attrs: Namespace): int {
    var j := LastIntIndex(attrs);
    if j < 0 then 0 else IntOf(attrs[j].1.v)
  }

  lemma AutoCountSnoc(a: Namespace, x: (string, Decl))
    ensures AutoCount(a + [x]) == AutoCount(a) + (if x.1.Auto? then 1 else 0)
  {
    assert (a + [x])[..|a|] == a;
  }

  /** How one more attribute moves the closed-form counter. */
  lemma CounterSnoc(a: Namespace, x: (string, Decl))
    ensures Counter(a + [x]) ==
              if x.1.Auto? then Counter(a) + 1
              else if IsIntDecl(x.1) then IntOf(x.1.v)
              else Counter(a)
    ensures LastExplicitInt(a + [x]) == if IsIntDecl(x.1) then IntOf(x.1.v) else LastExplicitInt(a)
  {
    var ax := a + [x];
    assert ax[..|a|] == a;
    if !IsIntDecl(x.1) {
      var j := LastIntIndex(a);
      assert LastIntIndex(ax) == j;
      if j < 0 {
        AutoCountSnoc(a, x);
      } else {
        assert ax[j + 1..] == a[j + 1..] + [x];
        AutoCountSnoc(a[j + 1..], x);
        assert ax[j] == a[j];
      }
    } else {
      assert ax[|a| + 1..] == [];
    }
  }

  /** The state after a prefix of the attributes is a prefix of the final state. */
  lemma {:induction false} AssignPrefix(attrs: Namespace, hook: Option<Decl>, n: nat)
    requires NoFuncs(attrs) && n <= |attrs|
    requires Assign(attrs, hook).Ok?
    ensures NoFuncs(attrs[..n]) && Assign(attrs[..n], hook).Ok?
    ensures |Assign(attrs, hook).value.values| == |attrs|
    ensures Assign(attrs[..n], hook).value.values == Assign(attrs, hook).value.values[..n]
    decreases |attrs|
  {
    AssignShape(attrs, hook);
    assert NoFuncs(attrs[..n]) by { assert forall k :: 0 <= k < n ==> attrs[..n][k] == attrs[k]; }
    if n < |attrs| {
      var init := attrs[..|attrs| - 1];
      var last := attrs[|attrs| - 1];
      AssignSnoc(attrs, hook);
      var bi := Assign(init, hook).value;
      StepShape(bi, last.0, last.1, hook);
      AssignShape(init, hook);
      AssignPrefix(init, hook, n);
      assert init[..n] == attrs[..n];
      var vs := Assign(attrs, hook).value.values;
      assert vs[..|init|] == bi.values;
      assert vs[..n] == vs[..|init|][..n];
    } else {
      assert attrs[..n] == attrs;
    }
  }

  /** Without a hook, `last_auto` ends as the closed-form counter. */
  lemma {:induction false} NoHookLastAuto(attrs: Namespace)
    requires NoFuncs(attrs)
    ensures Assign(attrs, None).Ok?
    ensures Assign(attrs, None).value.lastAuto == Counter(attrs)
  {
    AssignNoHookOk(attrs);
    if attrs != [] {
      var init := attrs[..|attrs| - 1];
      var last := attrs[|attrs| - 1];
      assert NoFuncs(init) by { assert forall k :: 0 <= k < |init| ==> init[k] == attrs[k]; }
      NoHookLastAuto(init);
      assert attrs == init + [last];
      CounterSnoc(init, last);
    }
  }

  /** Without a hook, `auto()` takes `last_auto + 1`: one more than the last
      explicit int before it (0 if none) plus the `auto()`s in between. A
      non-int explicit value leaves the counter alone. */
  lemma {:induction false} AutoCounter(attrs: Namespace)
    requires NoFuncs(attrs)
    ensures Assign(attrs, None).Ok?
    ensures Assign(attrs, None).value.lastAuto == Counter(attrs)
    ensures |Assign(attrs, None).value.values| == |attrs|
    ensures forall k :: 0 <= k < |attrs| && attrs[k].1.Auto? ==>
              Assign(attrs, None).value.values[k] == IntV(Counter(attrs[..k]) + 1)
  {
    NoHookLastAuto(attrs);
    AssignShape(attrs, None);
    forall k | 0 <= k < |attrs| && attrs[k].1.Auto?
      ensures Assign(attrs, None).value.values[k] == IntV(Counter(attrs[..k]) + 1)
    {
      AssignPrefix(attrs, None, k + 1);
      var p := attrs[..k + 1];
      assert p[..k] == attrs[..k] && p[k] == attrs[k];
      AssignSnoc(p, None);
      NoHookLastAuto(attrs[..k]);
      AssignShape(attrs[..k], None);
      StepShape(Assign(attrs[..k], None).value, p[k].0, p[k].1, None);
      assert Assign(p, None).value.values[k] == Assign(attrs, None).value.values[k];
    }
  }

  /** With a hook, every `auto()` attribute makes exactly one call, in
      declaration order, with `(name, 1, index, values so far)`, and takes
      the value the call returns; `last_auto` only follows explicit ints. */
  lemma {:induction false} HookCalls(attrs: Namespace, hook: Option<Decl>)
    requires NoFuncs(attrs)
    requires hook.Some?
    requires Assign(attrs, hook).Ok?
    ensures |Assign(attrs, hook).value.calls| == AutoCount(attrs)
    ensures Assign(attrs, hook).value.lastAuto == LastExplicitInt(attrs)
    ensures forall k :: 0 <= k < |attrs| && attrs[k].1.Auto? ==>
              var b := Assign(attrs, hook).value;
              && AutoCount(attrs[..k]) < |b.calls|
              && k < |b.values|
              && b.calls[AutoCount(attrs[..k])] == HookCall(attrs[k].0, 1, k, b.values[..k])
              && CallHook(hook.value, HookCall(attrs[k].0, 1, k, b.values[..k])) == Ok(b.values[k])
  {
    if attrs != [] {
      var init := attrs[..|attrs| - 1];
      var last := attrs[|attrs| - 1];
      AssignSnoc(attrs, hook);
      assert attrs == init + [last];
      HookCalls(init, hook);
      AssignShape(init, hook);
      AutoCountSnoc(init, last);
      CounterSnoc(init, last);
      var bi := Assign(init, hook).value;
      StepShape(bi, last.0, last.1, hook);
      var b := Assign(attrs, hook).value;
      assert b.calls[..|bi.calls|] == bi.calls;
      forall k | 0 <= k < |attrs| && attrs[k].1.Auto?
        ensures AutoCount(attrs[..k]) < |b.calls| && k < |b.values|
        ensures b.calls[AutoCount(attrs[..k])] == HookCall(attrs[k].0, 1, k, b.values[..k])
        ensures CallHook(hook.value, HookCall(attrs[k].0, 1, k, b.values[..k])) == Ok(b.values[k])
      {
        if k < |init| {
          assert attrs[k] == init[k];
          assert attrs[..k] == init[..k];
          assert b.values[..k] == bi.values[..k];
        } else {
          assert attrs[..k] == init;
        }
      }
    }
  }

  /** A failed construction is the hook's failure on some `auto()`
      attribute, passed through unchanged. */
  lemma {:induction false} AssignFailure(attrs: Namespace, hook: Option<Decl>)
    requires NoFuncs(attrs)
    requires Assign(attrs, hook).Err?
    ensures hook.Some?
    ensures exists k :: 0 <= k < |attrs| && attrs[k].1.Auto? && NoFuncs(attrs[..k]) &&
              Assign(attrs[..k], hook).Ok? &&
              CallHook(hook.value, HookCall(attrs[k].0, 1, k, Assign(attrs[..k], hook).value.values))
                == Err(Assign(attrs, hook).error)
  {
    var init := attrs[..|attrs| - 1];
    var last := attrs[|attrs| - 1];
    assert NoFuncs(init) by { assert forall k :: 0 <= k < |init| ==> init[k] == attrs[k]; }
    if Assign(init, hook).Err? {
      AssignFailure(init, hook);
      var k :| 0 <= k < |init| && init[k].1.Auto? && NoFuncs(init[..k]) && Assign(init[..k], hook).Ok? &&
               CallHook(hook.value, HookCall(init[k].0, 1, k, Assign(init[..k], hook).value.values))
                 == Err(Assign(init, hook).error);
      assert attrs[k] == init[k] && attrs[..k] == init[..k];
    } else {
      AssignShape(init, hook);
      assert attrs[..|init|] == init;
    }
  }

  // ---------------------------------------------------------------------
  // The scenarios the behaviour was pinned down with

  /** `v1 = auto(); v2 = 5; v3 = auto()` gives 1, 5, 6. */
  lemma InterleaveInt()
    ensures Assign([("v1", Auto), ("v2", Val(IntV(5))), ("v3", Auto)], None)
         == Ok(Built(6, ["v1", "v2", "v3"], [IntV(1), IntV(5), IntV(6)], []))
  {
    var a: Namespace := [("v1", Auto), ("v2", Val(IntV(5))), ("v3", Auto)];
    assert a[..2][..1] == a[..1] && a[..1][..0] == [];
    assert Assign([], None) == Ok(Built(0, [], [], []));
    var b1 := Assign(a[..1], None).value;
    assert b1.lastAuto == 1 && b1.names == ["v1"] && b1.values == [IntV(1)] && b1.calls == [];
    var b2 := Assign(a[..2], None).value;
    assert b2.lastAuto == 5 && b2.names == ["v1", "v2"] && b2.values == [IntV(1), IntV(5)] && b2.calls == [];
    var b := Assign(a, None).value;
    assert b.names == ["v1", "v2", "v3"] && b.values == [IntV(1), IntV(5), IntV(6)];
  }

  /** `v1 = auto(); v2 = "5"; v3 = auto()` gives 1, "5", 2. */
  lemma InterleaveStr()
    ensures Assign([("v1", Auto), ("v2", Val(StrV("5"))), ("v3", Auto)], None)
         == Ok(Built(2, ["v1", "v2", "v3"], [IntV(1), StrV("5"), IntV(2)], []))
  {
    var a: Namespace := [("v1", Auto), ("v2", Val(StrV("5"))), ("v3", Auto)];
    assert a[..2][..1] == a[..1] && a[..1][..0] == [];
    assert Assign([], None) == Ok(Built(0, [], [], []));
    var b1 := Assign(a[..1], None).value;
    assert b1.lastAuto == 1 && b1.names == ["v1"] && b1.values == [IntV(1)] && b1.calls == [];
    var b2 := Assign(a[..2], None).value;
    assert b2.lastAuto == 1 && b2.names == ["v1", "v2"] && b2.values == [IntV(1), StrV("5")] && b2.calls == [];
    var b := Assign(a, None).value;
    assert b.names == ["v1", "v2", "v3"] && b.values == [IntV(1), StrV("5"), IntV(2)];
  }

  /** A hook that returns the name: `A = auto(); B = "HI"; C = auto()` calls
      it with `("A", 1, 0, [])` and `("C", 1, 2, ["A", "HI"])`. */
  function NameHook(c: HookCall): Result<Value> {
    Ok(StrV(c.name))
  }

  lemma HookByName()
    ensures Assign([("A", Auto), ("B", Val(StrV("HI"))), ("C", Auto)], Some(Func(NameHook)))
         == Ok(Built(0, ["A", "B", "C"], [StrV("A"), StrV("HI"), StrV("C")],
                     [HookCall("A", 1, 0, []), HookCall("C", 1, 2, [StrV("A"), StrV("HI")])]))
  {
    var a: Namespace := [("A", Auto), ("B", Val(StrV("HI"))), ("C", Auto)];
    var hook := Some(Func(NameHook));
    assert a[..2][..1] == a[..1] && a[..1][..0] == [];
    assert Assign([], hook) == Ok(Built(0, [], [], []));
    var b1 := Assign(a[..1], hook).value;
    assert b1.lastAuto == 0 && b1.names == ["A"] && b1.values == [StrV("A")] && b1.calls == [HookCall("A", 1, 0, [])];
    var b2 := Assign(a[..2], hook).value;
    assert b2.names == ["A", "B"] && b2.values == [StrV("A"), StrV("HI")] && b2.calls == b1.calls;
    var b := Assign(a, hook).value;
    assert b.names == ["A", "B", "C"] && b.values == [StrV("A"), StrV("HI"), StrV("C")];
    assert b.calls == [HookCall("A", 1, 0, []), HookCall("C", 1, 2, [StrV("A"), StrV("HI")])];
  }
}
