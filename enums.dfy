/** Enum members and the enum types built from a class namespace: member
    construction in `Meta.__new__`, the type-level protocol (iteration,
    lookup by value with its memo, lookup by name, containment) and the
    `unique` guard. */
module Enums {
  import opened PyValues
  import opened AutoValues

  /** One enum member; `owner` is the `_cls` back-reference. Nothing about a
      member changes after it is created. */
  class Member {
    const owner: EnumType
    const name: string
    const value: Value

    constructor (owner: EnumType, name: string, value: Value)
      ensures this.owner == owner && this.name == name && this.value == value
    {
      this.owner := owner;
      this.name := name;
      this.value := value;
    }

    /** `__eq__` is inherited from `object`: identity. */
    predicate Equals(other: Member) {
      this == other
    }

    /** `__hash__`: the interpreter's string hash of the name. */
    function Hash(strHash: string -> int): int {
      strHash(name)
    }

    /** `__repr__`: `<Type.name: value!r>`. */
    function Repr(): string {
      "<" + owner.name + "." + name + ": " + PyValues.Repr(value) + ">"
    }

    /** `__reduce__`: the arguments of `getattr(owner, name)`, which is what
        unpickling calls. */
    function Reduce(): (EnumType, string) {
      (owner, name)
    }
  }

  /** Any object handed to `isinstance` or `in`: a member, or a plain value
      (which has no `_cls` attribute). */
  datatype Obj = MemberObj(m: Member) | PlainObj(v: Value)

  function NamesOf(ms: seq<Member>): (r: seq<string>)
    ensures |r| == |ms| && forall k :: 0 <= k < |ms| ==> r[k] == ms[k].name
  {
    seq(|ms|, k requires 0 <= k < |ms| => ms[k].name)
  }

  function ValuesOf(ms: seq<Member>): (r: seq<Value>)
    ensures |r| == |ms| && forall k :: 0 <= k < |ms| ==> r[k] == ms[k].value
  {
    seq(|ms|, k requires 0 <= k < |ms| => ms[k].value)
  }

  lemma NamesValuesSnoc(ms: seq<Member>, m: Member)
    ensures NamesOf(ms + [m]) == NamesOf(ms) + [m.name]
    ensures ValuesOf(ms + [m]) == ValuesOf(ms) + [m.value]
  {
    assert NamesOf(ms + [m]) == NamesOf(ms) + [m.name];
    assert ValuesOf(ms + [m]) == ValuesOf(ms) + [m.value];
  }

  /** The registry is a dict keyed by member name. */
  predicate DistinctNames(ms: seq<Member>) {
    forall i, j :: 0 <= i < j < |ms| ==> ms[i].name != ms[j].name
  }

  /** Position of the member called `n`, or `|ms|` when there is none. */
  function IndexOfName(ms: seq<Member>, n: string): (r: nat)
    ensures r <= |ms|
    ensures r < |ms| ==> ms[r].name == n
    ensures forall j :: 0 <= j < r ==> ms[j].name != n
  {
    if ms == [] then 0
    else if ms[0].name == n then 0
    else 1 + IndexOfName(ms[1..], n)
  }

  /** Position of the first value `==` to `v`, or `|vs|` when there is none:
      the member lookup by value must find. */
  function FirstIndex(vs: seq<Value>, v: Value): (r: nat)
    ensures r <= |vs|
    ensures r < |vs| ==> Eq(vs[r], v)
    ensures forall j :: 0 <= j < r ==> !Eq(vs[j], v)
  {
    if vs == [] then 0
    else if Eq(vs[0], v) then 0
    else 1 + FirstIndex(vs[1..], v)
  }

  /** `type.__new__` takes `__qualname__` from the namespace when it is there. */
  function QualnameOf(ns: Namespace, name: string): string {
    match Get(ns, "__qualname__")
    case Some(Val(StrV(q))) => q
    case _ => name
  }

  /** The `__module__` entry of the namespace, `None` when there is none. */
  function ModuleOf(ns: Namespace): Value {
    match Get(ns, "__module__")
    case Some(Val(v)) => v
    case _ => NoneV
  }

  /** `t` is the type `Meta.__new__` makes from `name` and `ns` when the
      member loop computes `b`: names and values from `b`, `__qualname__`
      and `__module__` from the namespace, an empty lookup memo. */
  ghost predicate IsBuiltFrom(t: EnumType, name: string, ns: Namespace, b: Built)
    reads t
  {
    && t.Valid()
    && t.name == name
    && t.qualname == QualnameOf(ns, name)
    && t.moduleName == ModuleOf(ns)
    && NamesOf(t.members) == b.names
    && ValuesOf(t.members) == b.values
    && t.cache == map[]
  }

  /** `b` is what the loop of `Meta.__new__` has built from `ns[..i]`. */
  ghost predicate BuiltUpTo(ns: Namespace, i: nat, hook: Option<Decl>, b: Built)
    requires i <= |ns|
  {
    Assign(MemberAttrs(ns[..i]), hook) == Ok(b)
  }

  /** A member attribute at position `i` is one more step of `Assign`. */
  lemma MemberStep(ns: Namespace, i: nat, hook: Option<Decl>, b: Built)
    requires i < |ns| && IsMemberAttr(ns[i])
    requires Assign(MemberAttrs(ns[..i]), hook) == Ok(b)
    ensures Assign(MemberAttrs(ns[..i + 1]), hook) == Step(b, ns[i].0, ns[i].1, hook)
  {
    assert ns[..i + 1][..i] == ns[..i];
    var before := MemberAttrs(ns[..i]);
    assert (before + [ns[i]])[..|before|] == before;
  }

  /** A non-member attribute at position `i` changes nothing. */
  lemma SkipStep(ns: Namespace, i: nat, hook: Option<Decl>)
    requires i < |ns| && !IsMemberAttr(ns[i])
    ensures MemberAttrs(ns[..i + 1]) == MemberAttrs(ns[..i])
    ensures Assign(MemberAttrs(ns[..i + 1]), hook) == Assign(MemberAttrs(ns[..i]), hook)
  {
    assert ns[..i + 1][..i] == ns[..i];
  }

  /** A hook failure at position `i` is the failure of the whole namespace. */
  lemma FailureStops(ns: Namespace, i: nat, hook: Option<Decl>)
    requires i < |ns|
    requires Assign(MemberAttrs(ns[..i + 1]), hook).Err?
    ensures Assign(MemberAttrs(ns), hook) == Assign(MemberAttrs(ns[..i + 1]), hook)
  {
    assert ns == ns[..i + 1] + ns[i + 1..];
    MemberAttrsAppend(ns[..i + 1], ns[i + 1..]);
    AssignErrExtends(MemberAttrs(ns[..i + 1]), MemberAttrs(ns[i + 1..]), hook);
  }

  /** A type created by `Meta`. `members` is `__members__`, in definition
      order; `cache` is the memo of lookup by value for this type. */
  class EnumType {
    const name: string
    const qualname: string
    const moduleName: Value
    var members: seq<Member>
    var cache: map<Value, Member>

    /** Every registered member belongs to this type, names are keys, and
        each cached lookup is what a fresh scan would find. */
    ghost predicate Valid()
      reads this
    {
      && (forall k :: 0 <= k < |members| ==> members[k].owner == this)
      && DistinctNames(members)
      && (forall v :: v in cache ==>
            FirstIndex(ValuesOf(members), v) < |members| &&
            cache[v] == members[FirstIndex(ValuesOf(members), v)])
    }

    constructor (name: string, qualname: string, moduleName: Value)
      ensures this.name == name && this.qualname == qualname && this.moduleName == moduleName
      ensures members == [] && cache == map[]
      ensures Valid()
    {
      this.name := name;
      this.qualname := qualname;
      this.moduleName := moduleName;
      members := [];
      cache := map[];
    }

    /** `Meta.__new__(name, bases, namespace)`. `bases[i]` is what base `i`
        has as `_generate_next_value_` (absent if it has none). The type
        gets one fresh member per member attribute, with the values of
        `Assign`; a hook failure is passed through. `calls` records the hook
        calls. */
    static method New(name: string, bases: seq<Option<Decl>>, ns: Namespace)
      returns (r: Result<EnumType>, ghost calls: seq<HookCall>)
      requires UniqueKeys(ns)
      ensures Assign(MemberAttrs(ns), ResolveHook(ns, bases)).Err? ==>
                r == Err(Assign(MemberAttrs(ns), ResolveHook(ns, bases)).error)
      ensures Assign(MemberAttrs(ns), ResolveHook(ns, bases)).Ok? ==>
                var built := Assign(MemberAttrs(ns), ResolveHook(ns, bases)).value;
                && r.Ok? && fresh(r.value)
                && (forall k :: 0 <= k < |r.value.members| ==> fresh(r.value.members[k]))
                && IsBuiltFrom(r.value, name, ns, built)
                && NamesOf(r.value.members) == Names(MemberAttrs(ns))
                && calls == built.calls
    {
      var customAuto := FindHook(ns, bases);
      var cls := new EnumType(name, QualnameOf(ns, name), ModuleOf(ns));
      var built;
      built, calls := BuildMembers(cls, ns, customAuto);
      if built.Err? {
        return Err(built.error), calls;
      }
      MemberAttrsUnique(ns);
      AssignShape(MemberAttrs(ns), customAuto);
      assert DistinctNames(built.value) by {
        assert NamesOf(built.value) == Names(MemberAttrs(ns));
      }
      cls.members := built.value;
      r := Ok(cls);
    }

    /** The loop of `Meta.__new__` over the namespace: one fresh member of
        `cls` per member attribute, valued as `Assign` says. */
    static method BuildMembers(cls: EnumType, ns: Namespace, customAuto: Option<Decl>)
      returns (r: Result<seq<Member>>, ghost calls: seq<HookCall>)
      ensures Assign(MemberAttrs(ns), customAuto).Err? ==>
                r == Err(Assign(MemberAttrs(ns), customAuto).error)
      ensures Assign(MemberAttrs(ns), customAuto).Ok? ==>
                var built := Assign(MemberAttrs(ns), customAuto).value;
                && r.Ok?
                && NamesOf(r.value) == built.names
                && ValuesOf(r.value) == built.values
                && (forall k :: 0 <= k < |r.value| ==> r.value[k].owner == cls && fresh(r.value[k]))
                && calls == built.calls
    {
      var members: seq<Member> := [];
      var lastAuto := 0;
      var index := 0;
      ghost var built := Built(0, [], [], []);
      var i := 0;
      while i < |ns|
        invariant 0 <= i <= |ns|
        invariant index == |members|
        invariant forall k :: 0 <= k < |members| ==> members[k].owner == cls && fresh(members[k])
        invariant BuiltUpTo(ns, i, customAuto, built)
        invariant built.lastAuto == lastAuto && built.names == NamesOf(members)
        invariant built.values == ValuesOf(members)
      {
        var (n, d) := ns[i];
        if !d.Func? && !StartsWithUnderscore(n) {
          MemberStep(ns, i, customAuto, built);
          var value, newLast, nextCalls := NextValue(built, n, d, customAuto, lastAuto, index, ValuesOf(members));
          if value.Err? {
            FailureStops(ns, i, customAuto);
            return Err(value.error), nextCalls;
          }
          lastAuto := newLast;
          var member := new Member(cls, n, value.value);
          var members' := members + [member];
          NamesValuesSnoc(members, member);
          assert members'[|members|] == member;
          members := members';
          index := index + 1;
          built := Built(newLast, built.names + [n], built.values + [value.value], nextCalls);
          assert BuiltUpTo(ns, i + 1, customAuto, built);
        } else {
          SkipStep(ns, i, customAuto);
          assert BuiltUpTo(ns, i + 1, customAuto, built);
        }
        i := i + 1;
      }
      assert ns[..i] == ns;
      r, calls := Ok(members), built.calls;
    }

    /** One pass of the loop body of `Meta.__new__` for a member attribute
        `n = d`: an `auto()` takes the hook's result (called with the name,
        start 1, the member index and the values so far), or else
        `last_auto + 1`; an explicit int resets `last_auto`. This is exactly
        one `Step` of the specification. */
    static method NextValue(ghost b: Built, n: string, d: Decl, customAuto: Option<Decl>,
                            lastAuto: int, index: nat, values: seq<Value>)
      returns (value: Result<Value>, newLast: int, ghost newCalls: seq<HookCall>)
      requires !d.Func? && b.lastAuto == lastAuto && b.values == values && index == |values|
      ensures value.Err? ==> Step(b, n, d, customAuto) == Err(value.error)
      ensures value.Err? ==> newCalls == b.calls + [HookCall(n, 1, index, values)]
      ensures value.Ok? ==>
                Step(b, n, d, customAuto) == Ok(Built(newLast, b.names + [n], b.values + [value.value], newCalls))
    {
      newLast, newCalls := lastAuto, b.calls;
      if d.Auto? {
        if customAuto.None? {
          newLast := lastAuto + 1;
          value := Ok(IntV(newLast));
        } else {
          var c := HookCall(n, 1, index, values);
          value := CallHook(customAuto.value, c);
          newCalls := b.calls + [c];
        }
      } else {
        value := Ok(d.v);
        if IsInt(d.v) {
          newLast := IntOf(d.v);
        }
      }
    }

    /** The lookup of `custom_auto` at the top of `Meta.__new__`: the
        namespace's `_generate_next_value_`, else the loop over the bases. */
    static method FindHook(ns: Namespace, bases: seq<Option<Decl>>) returns (customAuto: Option<Decl>)
      ensures customAuto == ResolveHook(ns, bases)
    {
      customAuto := Get(ns, GenerateNextValue);
      if IsNoneObject(customAuto) {
        customAuto := None;
        var j := 0;
        while j < |bases|
          invariant 0 <= j <= |bases|
          invariant customAuto.None? && FirstBaseHook(bases[j..]) == FirstBaseHook(bases)
        {
          if bases[j].Some? {
            customAuto := AsHook(bases[j]);
            return;
          }
          assert bases[j..][1..] == bases[j + 1..];
          j := j + 1;
        }
      }
    }

    /** `__iter__`: the registry's members in registry order. */
    function Iter(): (r: seq<Member>)
      reads this
      requires Valid()
      ensures r == members
      ensures forall k :: 0 <= k < |r| ==> r[k].owner == this
    {
      members
    }

    /** The body of `__call__`: the first member, in iteration order, whose
        value is `==` to `v`; `ValueError` when there is none. */
    method Lookup(v: Value) returns (r: Result<Member>)
      ensures r.Ok? <==> FirstIndex(ValuesOf(members), v) < |members|
      ensures r.Ok? ==> r.value == members[FirstIndex(ValuesOf(members), v)]
      ensures r.Err? ==> r.error == NoMemberWithValue(v)
    {
      var i := 0;
      while i < |members|
        invariant 0 <= i <= |members|
        invariant forall j :: 0 <= j < i ==> !Eq(members[j].value, v)
      {
        if Eq(members[i].value, v) {
          FirstMatchIsFirstIndex(members, v, i);
          return Ok(members[i]);
        }
        i := i + 1;
      }
      assert forall j :: 0 <= j < |members| ==> ValuesOf(members)[j] == members[j].value;
      return Err(NoMemberWithValue(v));
    }

    /** `T(v)`, memoised per type: a cached member when `v` was looked up
        before, else a scan whose success is remembered (failures are not
        cached, as `functools.cache` does not cache exceptions). */
    method Call(v: Value) returns (r: Result<Member>)
      requires Valid()
      modifies this`cache
      ensures Valid()
      ensures r.Ok? <==> FirstIndex(ValuesOf(members), v) < |members|
      ensures r.Ok? ==> r.value == members[FirstIndex(ValuesOf(members), v)] && r.value.owner == this
      ensures r.Err? ==> r.error == NoMemberWithValue(v)
      ensures cache == if r.Ok? then old(cache)[v := r.value] else old(cache)
    {
      if v in cache {
        r := Ok(cache[v]);
        assert cache[v := r.value] == cache;
        return;
      }
      r := Lookup(v);
      if r.Ok? {
        cache := cache[v := r.value];
      }
    }

    /** `__getitem__`: the registry entry for `key`, else `KeyError`. */
    function GetItem(key: string): (r: Result<Member>)
      reads this
      ensures r.Ok? <==> key in NamesOf(members)
      ensures r.Ok? ==> r.value in members && r.value.name == key
      ensures r.Err? ==> r.error == MissingName(key)
    {
      var i := IndexOfName(members, key);
      if i < |members| then Ok(members[i]) else Err(MissingName(key))
    }

    /** `getattr(cls, key)` for a member name: the attribute `setattr`
        installed, else `AttributeError`. */
    function GetAttr(key: string): (r: Result<Member>)
      reads this
      ensures r.Ok? <==> key in NamesOf(members)
      ensures r.Ok? ==> r.value in members && r.value.name == key
      ensures r.Err? ==> r.error == NoAttribute(key)
    {
      var i := IndexOfName(members, key);
      if i < |members| then Ok(members[i]) else Err(NoAttribute(key))
    }

    /** `__instancecheck__`: `getattr(x, "_cls", None) is self`. */
    predicate InstanceCheck(x: Obj) {
      x.MemberObj? && x.m.owner == this
    }

    /** `__contains__`: the same test as `isinstance`. */
    predicate Contains(x: Obj) {
      InstanceCheck(x)
    }
  }

  // ---------------------------------------------------------------------
  // Properties of the protocol

  /** Unpickling `m` gives back the very same object. */
  lemma UnpickleRoundTrip(m: Member)
    requires m.owner.Valid() && m in m.owner.members
    ensures m.Reduce().0.GetAttr(m.Reduce().1) == Ok(m)
  {
    var ms := m.owner.members;
    var i :| 0 <= i < |ms| && ms[i] == m;
    var r := IndexOfName(ms, m.name);
    assert r <= i;
  }

  /** Looking up a member's own name gives back the member. */
  lemma GetItemOwnName(t: EnumType, k: nat)
    requires t.Valid() && k < |t.members|
    ensures t.GetItem(t.members[k].name) == Ok(t.members[k])
  {
    var r := IndexOfName(t.members, t.members[k].name);
    assert r <= k;
  }

  /** A scan finds the member at the first matching position; the cache
      invariant speaks of the same position. */
  lemma FirstMatchIsFirstIndex(ms: seq<Member>, v: Value, i: nat)
    requires i < |ms| && Eq(ms[i].value, v)
    requires forall j :: 0 <= j < i ==> !Eq(ms[j].value, v)
    ensures FirstIndex(ValuesOf(ms), v) == i
  {
    assert ValuesOf(ms)[i] == ms[i].value;
  }

  /** Every registered member is an instance of, and contained in, its
      type; a plain value never is, even one a member holds. */
  lemma ContainsOwnMembers(t: EnumType)
    requires t.Valid()
    ensures forall k :: 0 <= k < |t.members| ==> t.Contains(MemberObj(t.members[k]))
    ensures forall v :: !t.Contains(PlainObj(v))
  {
  }

  /** A member of another type is never contained, whatever its name and value. */
  lemma ForeignMemberNotContained(t: EnumType, u: EnumType, m: Member)
    requires u.Valid() && m in u.members && t != u
    ensures !t.Contains(MemberObj(m)) && !t.InstanceCheck(MemberObj(m))
  {
  }

  /** Distinct members never compare equal: not two of one type, and not two
      of different types with the same name and value. */
  lemma MembersNeverEqual(t: EnumType, u: EnumType, i: nat, j: nat)
    requires t.Valid() && u.Valid() && i < |t.members| && j < |u.members|
    requires t != u || i != j
    ensures !t.members[i].Equals(u.members[j])
  {
  }

  /** Equal members hash alike, and the hash only depends on the name. */
  lemma HashByName(a: Member, b: Member, strHash: string -> int)
    ensures a.Equals(b) ==> a.Hash(strHash) == b.Hash(strHash)
    ensures a.name == b.name ==> a.Hash(strHash) == b.Hash(strHash)
  {
  }

  /** The repr shows the type name, the member name and an int value that
      can be read back. */
  lemma ReprShowsMember(m: Member)
    ensures var prefix := "<" + m.owner.name + "." + m.name + ": ";
            && |prefix| < |m.Repr()|
            && m.Repr()[..|prefix|] == prefix
            && m.Repr()[|m.Repr()| - 1] == '>'
            && m.Repr()[|prefix|..|m.Repr()| - 1] == PyValues.Repr(m.value)
            && (m.value.IntV? ==> ParseInt(m.Repr()[|prefix|..|m.Repr()| - 1]) == Some(m.value.i))
  {
    var prefix := "<" + m.owner.name + "." + m.name + ": ";
    assert m.Repr() == prefix + PyValues.Repr(m.value) + ">";
    assert m.Repr()[|prefix|..|m.Repr()| - 1] == PyValues.Repr(m.value);
    if m.value.IntV? {
      IntReprRoundTrip(m.value.i);
    }
  }

  /** Calling a type twice with one value gives the same member. */
  method CallTwice(t: EnumType, v: Value) returns (r1: Result<Member>, r2: Result<Member>)
    requires t.Valid()
    modifies t`cache
    ensures t.Valid() && r1 == r2
  {
    r1 := t.Call(v);
    r2 := t.Call(v);
  }

  /** The memo is per type: the same value looked up in two types gives
      each type its own member. */
  method CallPerType(t1: EnumType, t2: EnumType, v: Value) returns (r1: Result<Member>, r2: Result<Member>)
    requires t1.Valid() && t2.Valid() && t1 != t2
    modifies t1`cache, t2`cache
    ensures t1.Valid() && t2.Valid()
    ensures r1.Ok? ==> r1.value.owner == t1
    ensures r2.Ok? ==> r2.value.owner == t2
    ensures r1.Ok? && r2.Ok? ==> r1.value != r2.value
  {
    r1 := t1.Call(v);
    r2 := t2.Call(v);
  }

  // ---------------------------------------------------------------------
  // unique

  /** The value at `j` is `==` to one before it. */
  predicate RepeatsEarlier(vs: seq<Value>, j: nat)
    requires j < |vs|
  {
    exists i :: 0 <= i < j && Eq(vs[i], vs[j])
  }

  /** `x in xs` for a list: some element is `==` to `x`. */
  function InList(x: Value, xs: seq<Value>): (r: bool)
    ensures r <==> exists i :: 0 <= i < |xs| && Eq(xs[i], x)
  {
    if xs == [] then false
    else
      (Eq(xs[0], x) || InList(x, xs[1..])) &&
      assert forall i :: 1 <= i < |xs| ==> xs[i] == xs[1..][i - 1];
      true
  }

  /** `unique(cls)`: `cls` itself when no member value is `==` to an earlier
      one; otherwise `ValueError` naming the type and the first value, in
      registry order, that repeats an earlier one. */
  method Unique(cls: EnumType) returns (r: Result<EnumType>)
    ensures r.Ok? <==> forall i, j :: 0 <= i < j < |cls.members| ==> !Eq(cls.members[i].value, cls.members[j].value)
    ensures r.Ok? ==> r.value == cls
    ensures r.Err? ==>
              exists j :: (0 <= j < |cls.members| &&
                r.error == ReusedValue(cls.qualname, cls.members[j].value) &&
                RepeatsEarlier(ValuesOf(cls.members), j) &&
                forall j' :: 0 <= j' < j ==> !RepeatsEarlier(ValuesOf(cls.members), j'))
  {
    var values := ValuesOf(cls.members);
    var seen: seq<Value> := [];
    var j := 0;
    while j < |values|
      invariant 0 <= j <= |values|
      invariant seen == values[..j]
      invariant forall j' :: 0 <= j' < j ==> !RepeatsEarlier(values, j')
    {
      var value := values[j];
      if InList(value, seen) {
        assert RepeatsEarlier(values, j) by {
          var i :| 0 <= i < |seen| && Eq(seen[i], value);
          assert seen[i] == values[i];
        }
        return Err(ReusedValue(cls.qualname, value));
      }
      seen := seen + [value];
      j := j + 1;
    }
    forall i, j | 0 <= i < j < |values| ensures !Eq(values[i], values[j]) {
      assert !RepeatsEarlier(values, j);
    }
    return Ok(cls);
  }
}
