/** The normalization registry (src/Velocity/normalizations/normalizations.ts): per
    constructor, a table from property name to the function that gets or sets it, and the
    set of names whose values must never be cached. */
module Normalizations {
  import opened Types

  /** The functions the registry deals in: a class constructor, one of the normalizations
      this model defines, or a function it does not look into. */
  datatype Callable =
    | Constructor(id: nat)
    | Dimension(dimension: string, wantInner: bool)
    | VendorPrefixed(property: string, unprefixed: string)
    | UserFunction(id: nat)

  /** The JavaScript values `registerNormalization` can be handed. */
  datatype JsVal = JString(s: string) | JFunction(f: Callable) | JObject(id: nat) | JBool(b: bool) | JUndefined | JOther

  /** `args[i]`, which is `undefined` past the end of the array. */
  function Arg(args: seq<JsVal>, i: nat): (v: JsVal)
    ensures i >= |args| ==> v == JUndefined
    ensures i < |args| ==> v == args[i]
  {
    if i < |args| then args[i] else JUndefined
  }

  /** What `console.warn` is told when a registration is refused. */
  datatype Warning = BadConstructor(v: JsVal) | BadName(v: JsVal) | BadCallback(name: JsVal, v: JsVal)

  /** `constructors`, `Normalizations` and `NoCacheNormalizations` as values. */
  datatype Tables = Tables(constructors: seq<JsVal>, normalizations: seq<map<string, Callable>>, noCache: set<string>)

  /** `constructors.indexOf(c)`: the first index holding `c`, or -1. */
  function IndexOf(s: seq<JsVal>, c: JsVal): (i: int)
    ensures -1 <= i < |s|
    ensures i >= 0 ==> s[i] == c && forall j | 0 <= j < i :: s[j] != c
    ensures i < 0 <==> c !in s
    decreases |s|
  {
    if s == [] then -1
    else if s[0] == c then 0
    else
      var j := IndexOf(s[1..], c);
      if j < 0 then -1 else j + 1
  }

  /** The tables line up: entry `i` of `Normalizations` belongs to constructor `i`, and no
      constructor is listed twice. */
  predicate Aligned(t: Tables)
  {
    && |t.constructors| == |t.normalizations|
    && forall i, j | 0 <= i < j < |t.constructors| :: t.constructors[i] != t.constructors[j]
  }

  /** Why `args` is refused, checked in the order of normalizations.ts:58-63: a string or
      non-object constructor, then a name that is not a string, then a callback that is not
      a function. */
  function Refusal(args: seq<JsVal>): (w: Option<Warning>)
  {
    var ctor, name, callback := Arg(args, 0), Arg(args, 1), Arg(args, 2);
    if ctor.JString? || !(ctor.JFunction? || ctor.JObject?) then Some(BadConstructor(ctor))
    else if !name.JString? then Some(BadName(name))
    else if !callback.JFunction? then Some(BadCallback(name, callback))
    else None
  }

  /** `registerNormalization` on the tables (normalizations.ts:53-76): a refused call
      changes nothing; otherwise the constructor is found or appended with an empty table,
      the callback is stored under the name, and an explicit `false` fourth argument marks
      the name as never cached. */
  function Register(t: Tables, args: seq<JsVal>): (r: Tables)
    requires Aligned(t)
    ensures Aligned(r)
  {
    if Refusal(args).Some? then t
    else
      var ctor, name, callback := args[0], args[1].s, args[2].f;
      var i := IndexOf(t.constructors, ctor);
      var t1 := if i < 0 then t.(constructors := t.constructors + [ctor], normalizations := t.normalizations + [map[]]) else t;
      var index := if i < 0 then |t.constructors| else i;
      t1.(normalizations := t1.normalizations[index := t1.normalizations[index][name := callback]],
          noCache := if Arg(args, 3) == JBool(false) then t1.noCache + {name} else t1.noCache)
  }

  /** The function registered for `name` under constructor `c`, if any. */
  function Find(t: Tables, c: JsVal, name: string): (r: Option<Callable>)
  {
    var i := IndexOf(t.constructors, c);
    if 0 <= i < |t.normalizations| && name in t.normalizations[i] then Some(t.normalizations[i][name]) else None
  }

  /** A refused registration leaves every table as it was; an accepted one stores its
      callback under its constructor and name and changes no other entry. */
  lemma RegisterEffect(t: Tables, args: seq<JsVal>)
    requires Aligned(t)
    ensures Refusal(args).Some? ==> Register(t, args) == t
    ensures Refusal(args).None? ==>
      && Find(Register(t, args), args[0], args[1].s) == Some(args[2].f)
      && (forall c, n | c != args[0] || n != args[1].s :: Find(Register(t, args), c, n) == Find(t, c, n))
      && t.constructors <= Register(t, args).constructors
  {
    if Refusal(args).None? {
      var r := Register(t, args);
      var ctor := args[0];
      var i := IndexOf(t.constructors, ctor);
      if i < 0 {
        assert r.constructors == t.constructors + [ctor];
        assert IndexOf(r.constructors, ctor) == |t.constructors|;
        forall c | c != ctor ensures IndexOf(r.constructors, c) == IndexOf(t.constructors, c) {
          IndexOfAppend(t.constructors, ctor, c);
        }
      }
    }
  }

  /** Appending a constructor does not move the others. */
  lemma {:induction false} IndexOfAppend(s: seq<JsVal>, x: JsVal, c: JsVal)
    requires c != x
    ensures IndexOf(s + [x], c) == IndexOf(s, c)
    decreases |s|
  {
    if s != [] {
      assert (s + [x])[1..] == s[1..] + [x];
      IndexOfAppend(s[1..], x, c);
    } else {
      assert (s + [x])[1..] == [];
    }
  }

  /** Names are only ever added to the never-cache set, and exactly by an accepted call
      with an explicit `false`. */
  lemma NoCacheGrows(t: Tables, args: seq<JsVal>)
    requires Aligned(t)
    ensures t.noCache <= Register(t, args).noCache
    ensures Register(t, args).noCache - t.noCache <= (if Refusal(args).None? && Arg(args, 3) == JBool(false) then {args[1].s} else {})
    ensures Refusal(args).None? && Arg(args, 3) == JBool(false) ==> args[1].s in Register(t, args).noCache
  {
  }

  /** Calling `registerNormalization` with `[name, callback]`, the name in the constructor
      slot, is always refused for its constructor. */
  lemma NameFirstRefused(t: Tables, name: string, callback: Callable)
    requires Aligned(t)
    ensures Refusal([JString(name), JFunction(callback)]) == Some(BadConstructor(JString(name)))
    ensures Register(t, [JString(name), JFunction(callback)]) == t
  {
  }

  /** Several registrations in order, with the warnings of the refused ones. */
  function RegisterAll(t: Tables, calls: seq<seq<JsVal>>): (r: (Tables, seq<Warning>))
    requires Aligned(t)
    ensures Aligned(r.0)
    decreases |calls|
  {
    if calls == [] then (t, [])
    else
      var n := |calls| - 1;
      var p := RegisterAll(t, calls[..n]);
      (Register(p.0, calls[n]), p.1 + (if Refusal(calls[n]).Some? then [Refusal(calls[n]).value] else []))
  }

  /** Registrations made with the name first register nothing and each warns about its
      constructor. */
  lemma {:induction false} NameFirstRegistersNothing(t: Tables, calls: seq<seq<JsVal>>)
    requires Aligned(t)
    requires forall i | 0 <= i < |calls| :: |calls[i]| == 2 && calls[i][0].JString?
    ensures RegisterAll(t, calls).0 == t
    ensures RegisterAll(t, calls).1 == seq(|calls|, i requires 0 <= i < |calls| => BadConstructor(calls[i][0]))
    decreases |calls|
  {
    if calls != [] {
      var n := |calls| - 1;
      assert forall i | 0 <= i < n :: calls[..n][i] == calls[i];
      NameFirstRegistersNothing(t, calls[..n]);
    }
  }

  /** The arguments of one registration of `name` to `callback`: with the constructor
      first when one is given, or in the two-element form `[name, callback]`. */
  function RegistrationArgs(target: Option<JsVal>, entry: (string, Callable)): (args: seq<JsVal>)
    ensures target.None? ==> |args| == 2 && args[0] == JString(entry.0)
    ensures target.Some? ==> args == [target.value, JString(entry.0), JFunction(entry.1)]
  {
    match target
    case None => [JString(entry.0), JFunction(entry.1)]
    case Some(c) => [c, JString(entry.0), JFunction(entry.1)]
  }

  /** One registration per entry, in order. */
  function Registrations(target: Option<JsVal>, entries: seq<(string, Callable)>): (calls: seq<seq<JsVal>>)
    ensures |calls| == |entries|
  {
    seq(|entries|, i requires 0 <= i < |entries| => RegistrationArgs(target, entries[i]))
  }

  /** Registering one more entry is one more call of `Register`. */
  lemma RegisterAllSnoc(t: Tables, target: Option<JsVal>, entries: seq<(string, Callable)>, e: (string, Callable))
    requires Aligned(t)
    ensures var p := RegisterAll(t, Registrations(target, entries));
      var args := RegistrationArgs(target, e);
      RegisterAll(t, Registrations(target, entries + [e]))
        == (Register(p.0, args), p.1 + (if Refusal(args).Some? then [Refusal(args).value] else []))
  {
    assert Registrations(target, entries + [e])[..|entries|] == Registrations(target, entries);
  }

  /** The callback of the last entry named `name`, if any. */
  function LastFor(entries: seq<(string, Callable)>, name: string): (r: Option<Callable>)
    ensures r.Some? <==> exists i | 0 <= i < |entries| :: entries[i].0 == name
    ensures r.Some? ==> exists i | 0 <= i < |entries| :: entries[i] == (name, r.value)
    decreases |entries|
  {
    if entries == [] then None
    else
      var n := |entries| - 1;
      if entries[n].0 == name then Some(entries[n].1)
      else
        var r := LastFor(entries[..n], name);
        assert forall i | 0 <= i < n :: entries[..n][i] == entries[i];
        r
  }

  /** Registering entries under a valid constructor leaves, for each name, the callback of
      its last entry under that constructor; every other constructor and name keeps what it
      had, and nothing is refused. */
  lemma {:induction false} RegisterAllFind(t: Tables, c: JsVal, entries: seq<(string, Callable)>)
    requires Aligned(t) && (c.JFunction? || c.JObject?)
    ensures forall c', n ::
              Find(RegisterAll(t, Registrations(Some(c), entries)).0, c', n) ==
              (if c' == c && LastFor(entries, n).Some? then LastFor(entries, n) else Find(t, c', n))
    ensures RegisterAll(t, Registrations(Some(c), entries)).1 == []
    decreases |entries|
  {
    if entries != [] {
      var n := |entries| - 1;
      var init := entries[..n];
      assert entries == init + [entries[n]];
      RegisterAllFind(t, c, init);
      RegisterAllSnoc(t, Some(c), init, entries[n]);
      var p := RegisterAll(t, Registrations(Some(c), init));
      RegisterEffect(p.0, RegistrationArgs(Some(c), entries[n]));
    }
  }

  /** The registry object: the three module-level tables, and the warnings printed. */
  class Registry {
    var constructors: seq<JsVal>
    var normalizations: seq<map<string, Callable>>
    var noCache: set<string>
    var warnings: seq<Warning>

    ghost function TablesOf(): Tables
      reads this
    {
      Tables(constructors, normalizations, noCache)
    }

    predicate Valid()
      reads this
    {
      Aligned(Tables(constructors, normalizations, noCache))
    }

    constructor ()
      ensures Valid() && constructors == [] && normalizations == [] && noCache == {} && warnings == []
    {
      constructors, normalizations, noCache, warnings := [], [], {}, [];
    }

    /** `registerNormalization` (normalizations.ts:53-76). */
    method RegisterNormalization(args: seq<JsVal>)
      requires Valid()
      modifies this
      ensures Valid() && TablesOf() == Register(old(TablesOf()), args)
      ensures warnings == old(warnings) + (if Refusal(args).Some? then [Refusal(args).value] else [])
    {
      var ctor, name, callback := Arg(args, 0), Arg(args, 1), Arg(args, 2);
      if ctor.JString? || !(ctor.JFunction? || ctor.JObject?) {
        warnings := warnings + [BadConstructor(ctor)];
      } else if !name.JString? {
        warnings := warnings + [BadName(name)];
      } else if !callback.JFunction? {
        warnings := warnings + [BadCallback(name, callback)];
      } else {
        var index := IndexOf(constructors, ctor);
        if index < 0 {
          constructors := constructors + [ctor];
          normalizations := normalizations + [map[]];
          index := |constructors| - 1;
        }
        normalizations := normalizations[index := normalizations[index][name.s := callback.f]];
        if Arg(args, 3) == JBool(false) {
          noCache := noCache + {name.s};
        }
      }
    }

    /** Registrations one after the other. */
    method RegisterEach(calls: seq<seq<JsVal>>)
      requires Valid()
      modifies this
      ensures Valid() && TablesOf() == RegisterAll(old(TablesOf()), calls).0
      ensures warnings == old(warnings) + RegisterAll(old(TablesOf()), calls).1
    {
      for i := 0 to |calls|
        invariant Valid() && TablesOf() == RegisterAll(old(TablesOf()), calls[..i]).0
        invariant warnings == old(warnings) + RegisterAll(old(TablesOf()), calls[..i]).1
      {
        assert calls[..i + 1][..i] == calls[..i];
        RegisterNormalization(calls[i]);
      }
      assert calls[..|calls|] == calls;
    }
  }
}
