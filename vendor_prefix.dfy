/** Vendor-prefixed style names (src/Velocity/css/normalizations/vendorPrefix.ts): which
    style keys count as prefixed, the unprefixed name each stands for, the normalization
    that maps one to the other, and the loop that registers them. */
module VendorPrefixes {
  import opened Types
  import opened Options
  import opened Normalizations

  /** The lower-case heads of `/^webkit[A-Z]/`, `/^moz[A-Z]/`, `/^ms[A-Z]/` and `/^o[A-Z]/`. */
  const VENDOR_HEADS: seq<string> := ["webkit", "moz", "ms", "o"]

  predicate IsUpper(c: char) { 'A' <= c <= 'Z' }

  predicate IsLower(c: char) { 'a' <= c <= 'z' }

  /** Vendor pattern `i` matches `p`: its head, then a capital letter. */
  predicate VendorTest(i: nat, p: string)
    requires i < |VENDOR_HEADS|
  {
    StartsWith(p, VENDOR_HEADS[i]) && |p| > |VENDOR_HEADS[i]| && IsUpper(p[|VENDOR_HEADS[i]|])
  }

  /** One of the first `i` patterns matches `p`. */
  predicate MatchBelow(p: string, i: nat)
    requires i <= |VENDOR_HEADS|
  {
    i > 0 && (VendorTest(i - 1, p) || MatchBelow(p, i - 1))
  }

  /** A style key the registration loop considers. */
  predicate VendorKey(p: string)
  {
    MatchBelow(p, |VENDOR_HEADS|)
  }

  /** No key matches two patterns, so the inner loop registers a key at most once. */
  lemma VendorTestsExclusive(i: nat, j: nat, p: string)
    requires i < |VENDOR_HEADS| && j < |VENDOR_HEADS| && VendorTest(i, p) && VendorTest(j, p)
    ensures i == j
  {
    var u, v := VENDOR_HEADS[i], VENDOR_HEADS[j];
    assert p[0] == p[..|u|][0] == u[0];
    assert p[0] == p[..|v|][0] == v[0];
    if u[0] == 'm' && v[0] == 'm' {
      assert p[1] == p[..|u|][1] == u[1];
      assert p[1] == p[..|v|][1] == v[1];
    }
  }

  /** A pattern that matches was not preceded by another that matched. */
  lemma {:induction false} NoEarlierMatch(i: nat, p: string, k: nat)
    requires i < |VENDOR_HEADS| && VendorTest(i, p) && k <= i
    ensures !MatchBelow(p, k)
    decreases k
  {
    if k > 0 {
      if VendorTest(k - 1, p) {
        VendorTestsExclusive(i, k - 1, p);
        assert false;
      }
      NoEarlierMatch(i, p, k - 1);
    }
  }

  /** The length of the leading run of lower-case letters. */
  function LowerRun(p: string): (n: nat)
    ensures n <= |p|
    ensures forall k | 0 <= k < n :: IsLower(p[k])
    ensures n < |p| ==> !IsLower(p[n])
    decreases |p|
  {
    if p != [] && IsLower(p[0]) then 1 + LowerRun(p[1..]) else 0
  }

  /** `property.replace(/^[a-z]+([A-Z])/, …)` (vendorPrefix.ts:33): a leading lower-case run
      followed by a capital is replaced by that capital lower-cased; a name of any other
      shape is kept. */
  function Unprefixed(p: string): string
  {
    var n := LowerRun(p);
    if 0 < n < |p| && IsUpper(p[n]) then Lower([p[n]]) + p[n + 1..] else p
  }

  /** The unprefixed name of a key vendor pattern `i` matches is the key without the
      vendor head and with its capital lower-cased. */
  lemma UnprefixedOfVendor(i: nat, p: string)
    requires i < |VENDOR_HEADS| && VendorTest(i, p)
    ensures var h := |VENDOR_HEADS[i]|;
      Unprefixed(p) == [(p[h] as int + 32) as char] + p[h + 1..]
  {
    var v := VENDOR_HEADS[i];
    assert forall k | 0 <= k < |v| :: IsLower(v[k]);
    assert forall k | 0 <= k < |v| :: p[k] == p[..|v|][k] == v[k];
    assert LowerRun(p) == |v|;
  }

  /** A `webkit` key stands for its name after the head, first letter lower-cased:
      `webkitTransform` for `transform`. */
  lemma WebkitUnprefixed(c: char, rest: string)
    requires IsUpper(c)
    ensures VendorKey("webkit" + [c] + rest)
    ensures Unprefixed("webkit" + [c] + rest) == [(c as int + 32) as char] + rest
  {
    var p := "webkit" + [c] + rest;
    assert p[..6] == "webkit" && p[6] == c && p[7..] == rest;
    assert VendorTest(0, p);
    MatchAbove(p, 1);
    UnprefixedOfVendor(0, p);
  }

  /** Every vendor key starts with the first letter of a vendor head. */
  lemma VendorKeyHead(p: string)
    requires VendorKey(p)
    ensures |p| > 0 && (p[0] == 'w' || p[0] == 'm' || p[0] == 'o')
  {
    MatchWitness(p, |VENDOR_HEADS|);
    var i :| 0 <= i < |VENDOR_HEADS| && VendorTest(i, p);
    var v := VENDOR_HEADS[i];
    assert v == "webkit" || v == "moz" || v == "ms" || v == "o";
    assert p[0] == p[..|v|][0] == v[0];
  }

  /** A capitalised head and a plain name are not vendor keys. */
  lemma NotVendorKeys()
    ensures !VendorKey("WebkitTransform") && !VendorKey("transform")
  {
    if VendorKey("WebkitTransform") {
      VendorKeyHead("WebkitTransform");
      assert false;
    }
    if VendorKey("transform") {
      VendorKeyHead("transform");
      assert false;
    }
  }

  /** What the normalization returns: the style read, or `true` after a write. */
  datatype StyleAnswer = Read(v: Option<string>) | Wrote(ok: bool)

  /** `vendorPrefix(property, unprefixed)` (vendorPrefix.ts:14-22) on an inline style: the
      getter reads the unprefixed name, the setter writes the prefixed one. */
  function VendorPrefix(property: string, unprefixed: string, style: map<string, string>, value: Option<string>)
    : (r: (map<string, string>, StyleAnswer))
  {
    match value
    case None => (style, Read(if unprefixed in style then Some(style[unprefixed]) else None))
    case Some(v) => (style[property := v], Wrote(true))
  }

  /** Reading changes nothing; writing changes only the prefixed name and answers `true`;
      a read after a write sees the written value only when the two names are the same, as
      the getter reads the unprefixed name. */
  lemma VendorPrefixAccess(property: string, unprefixed: string, style: map<string, string>, v: string)
    ensures VendorPrefix(property, unprefixed, style, None).0 == style
    ensures var w := VendorPrefix(property, unprefixed, style, Some(v));
      && w.1 == Wrote(true) && property in w.0 && w.0[property] == v
      && (forall n | n != property :: (n in w.0 <==> n in style) && (n in style ==> w.0[n] == style[n]))
      && VendorPrefix(property, unprefixed, w.0, None).1 ==
         (if unprefixed == property then Read(Some(v)) else VendorPrefix(property, unprefixed, style, None).1)
  {
  }

  /** What the loop registers for one key: the key under its unprefixed name, when it is a
      vendor key and either every prefix is wanted or the unprefixed name is a string-valued
      style. */
  function KeyEntry(key: string, isStringStyle: string -> bool, allVendorPrefixes: bool): seq<(string, Callable)>
  {
    if VendorKey(key) && (allVendorPrefixes || isStringStyle(Unprefixed(key)))
    then [(Unprefixed(key), VendorPrefixed(key, Unprefixed(key)))]
    else []
  }

  /** What the loop registers for the keys, in order. */
  function Selected(keys: seq<string>, isStringStyle: string -> bool, allVendorPrefixes: bool): seq<(string, Callable)>
    decreases |keys|
  {
    if keys == [] then []
    else
      var n := |keys| - 1;
      Selected(keys[..n], isStringStyle, allVendorPrefixes) + KeyEntry(keys[n], isStringStyle, allVendorPrefixes)
  }

  /** An entry is selected exactly when some key produces it. */
  lemma {:induction false} SelectedExact(keys: seq<string>, isStringStyle: string -> bool, allVendorPrefixes: bool, e: (string, Callable))
    ensures e in Selected(keys, isStringStyle, allVendorPrefixes) <==>
      exists k | 0 <= k < |keys| :: KeyEntry(keys[k], isStringStyle, allVendorPrefixes) == [e]
    decreases |keys|
  {
    if keys != [] {
      var n := |keys| - 1;
      var earlier := Selected(keys[..n], isStringStyle, allVendorPrefixes);
      var last := KeyEntry(keys[n], isStringStyle, allVendorPrefixes);
      SelectedExact(keys[..n], isStringStyle, allVendorPrefixes, e);
      if e in earlier + last {
        if e in earlier {
          var k :| 0 <= k < n && KeyEntry(keys[..n][k], isStringStyle, allVendorPrefixes) == [e];
          assert keys[..n][k] == keys[k];
        } else {
          assert last == [e];
        }
      }
      if exists k | 0 <= k < |keys| :: KeyEntry(keys[k], isStringStyle, allVendorPrefixes) == [e] {
        var k :| 0 <= k < |keys| && KeyEntry(keys[k], isStringStyle, allVendorPrefixes) == [e];
        if k < n {
          assert keys[..n][k] == keys[k];
          assert e in earlier;
        } else {
          assert e in last;
        }
      }
    }
  }

  /** One registration of the loop, with the tables and warnings so far given by the
      entries already registered. */
  method RegisterNext(reg: Registry, ghost t0: Tables, ghost w0: seq<Warning>, target: Option<JsVal>,
                      ghost done: seq<(string, Callable)>, e: (string, Callable))
    requires reg.Valid() && Aligned(t0)
    requires reg.TablesOf() == RegisterAll(t0, Registrations(target, done)).0
    requires reg.warnings == w0 + RegisterAll(t0, Registrations(target, done)).1
    modifies reg
    ensures reg.Valid() && reg.TablesOf() == RegisterAll(t0, Registrations(target, done + [e])).0
    ensures reg.warnings == w0 + RegisterAll(t0, Registrations(target, done + [e])).1
  {
    RegisterAllSnoc(t0, target, done, e);
    reg.RegisterNormalization(RegistrationArgs(target, e));
  }

  /** The inner loop (vendorPrefix.ts:31-39): one key against every vendor pattern. */
  method RegisterKey(reg: Registry, ghost t0: Tables, ghost w0: seq<Warning>, target: Option<JsVal>,
                     ghost done: seq<(string, Callable)>, property: string, isStringStyle: string -> bool,
                     allVendorPrefixes: bool)
    requires reg.Valid() && Aligned(t0)
    requires reg.TablesOf() == RegisterAll(t0, Registrations(target, done)).0
    requires reg.warnings == w0 + RegisterAll(t0, Registrations(target, done)).1
    modifies reg
    ensures reg.Valid()
    ensures reg.TablesOf() == RegisterAll(t0, Registrations(target, done + KeyEntry(property, isStringStyle, allVendorPrefixes))).0
    ensures reg.warnings == w0 + RegisterAll(t0, Registrations(target, done + KeyEntry(property, isStringStyle, allVendorPrefixes))).1
  {
    ghost var wanted := allVendorPrefixes || isStringStyle(Unprefixed(property));
    ghost var entry := KeyEntry(property, isStringStyle, allVendorPrefixes);
    assert done + [] == done;
    for i := 0 to |VENDOR_HEADS|
      invariant reg.Valid()
      invariant reg.TablesOf() == RegisterAll(t0, Registrations(target, done + (if MatchBelow(property, i) && wanted then entry else []))).0
      invariant reg.warnings == w0 + RegisterAll(t0, Registrations(target, done + (if MatchBelow(property, i) && wanted then entry else []))).1
    {
      if VendorTest(i, property) {
        var unprefixed := Unprefixed(property);
        if allVendorPrefixes || isStringStyle(unprefixed) {
          NoEarlierMatch(i, property, i);
          MatchAbove(property, i + 1);
          RegisterNext(reg, t0, w0, target, done, (unprefixed, VendorPrefixed(property, unprefixed)));
        }
      } else if MatchBelow(property, i) {
        assert MatchBelow(property, i + 1);
      }
    }
  }

  /** The registration loop (vendorPrefix.ts:30-40): every key of the style, against every
      vendor pattern. As written (`target` is `None`) each call passes `[unprefixed,
      normalization]`; with a constructor, `[constructor, unprefixed, normalization]`. */
  method RegisterVendorPrefixes(reg: Registry, keys: seq<string>, isStringStyle: string -> bool,
                                allVendorPrefixes: bool, target: Option<JsVal>)
    requires reg.Valid()
    modifies reg
    ensures reg.Valid()
    ensures reg.TablesOf() == RegisterAll(old(reg.TablesOf()), Registrations(target, Selected(keys, isStringStyle, allVendorPrefixes))).0
    ensures reg.warnings == old(reg.warnings) + RegisterAll(old(reg.TablesOf()), Registrations(target, Selected(keys, isStringStyle, allVendorPrefixes))).1
  {
    ghost var t0, w0 := reg.TablesOf(), reg.warnings;
    assert w0 + [] == w0;
    for k := 0 to |keys|
      invariant reg.Valid()
      invariant reg.TablesOf() == RegisterAll(t0, Registrations(target, Selected(keys[..k], isStringStyle, allVendorPrefixes))).0
      invariant reg.warnings == w0 + RegisterAll(t0, Registrations(target, Selected(keys[..k], isStringStyle, allVendorPrefixes))).1
    {
      assert keys[..k + 1][..k] == keys[..k];
      RegisterKey(reg, t0, w0, target, Selected(keys[..k], isStringStyle, allVendorPrefixes), keys[k], isStringStyle, allVendorPrefixes);
    }
    assert keys[..|keys|] == keys;
  }

  /** A match among the first `i` patterns is a match of one of them. */
  lemma {:induction false} MatchWitness(p: string, i: nat)
    requires i <= |VENDOR_HEADS| && MatchBelow(p, i)
    ensures exists j | 0 <= j < i :: VendorTest(j, p)
    decreases i
  {
    if !VendorTest(i - 1, p) {
      MatchWitness(p, i - 1);
    }
  }

  /** A match among the first `i` patterns is a match among them all. */
  lemma {:induction false} MatchAbove(p: string, i: nat)
    requires 0 < i <= |VENDOR_HEADS| && MatchBelow(p, i)
    ensures MatchBelow(p, |VENDOR_HEADS|)
    decreases |VENDOR_HEADS| - i
  {
    if i < |VENDOR_HEADS| {
      MatchAbove(p, i + 1);
    }
  }

  /** As written, the loop registers nothing, whatever the style's keys. */
  lemma VendorPrefixesAsWritten(t: Tables, keys: seq<string>, isStringStyle: string -> bool, allVendorPrefixes: bool)
    requires Aligned(t)
    ensures RegisterAll(t, Registrations(None, Selected(keys, isStringStyle, allVendorPrefixes))).0 == t
    ensures |RegisterAll(t, Registrations(None, Selected(keys, isStringStyle, allVendorPrefixes))).1|
      == |Selected(keys, isStringStyle, allVendorPrefixes)|
  {
    NameFirstRegistersNothing(t, Registrations(None, Selected(keys, isStringStyle, allVendorPrefixes)));
  }

  /** `key` is selected and stands for `n`. */
  predicate StandsFor(key: string, n: string, isStringStyle: string -> bool, allVendorPrefixes: bool)
  {
    KeyEntry(key, isStringStyle, allVendorPrefixes) != [] && Unprefixed(key) == n
  }

  /** The last entry for `n` among the selected ones comes from a key standing for `n`. */
  lemma LastSelected(keys: seq<string>, isStringStyle: string -> bool, allVendorPrefixes: bool, n: string)
    requires LastFor(Selected(keys, isStringStyle, allVendorPrefixes), n).Some?
    ensures exists k | 0 <= k < |keys| ::
              && StandsFor(keys[k], n, isStringStyle, allVendorPrefixes)
              && LastFor(Selected(keys, isStringStyle, allVendorPrefixes), n).value == VendorPrefixed(keys[k], n)
  {
    var sel := Selected(keys, isStringStyle, allVendorPrefixes);
    var i :| 0 <= i < |sel| && sel[i] == (n, LastFor(sel, n).value);
    SelectedExact(keys, isStringStyle, allVendorPrefixes, sel[i]);
    var k :| 0 <= k < |keys| && KeyEntry(keys[k], isStringStyle, allVendorPrefixes) == [sel[i]];
    assert StandsFor(keys[k], n, isStringStyle, allVendorPrefixes);
  }

  /** A name some selected key stands for has an entry. */
  lemma SelectedName(keys: seq<string>, isStringStyle: string -> bool, allVendorPrefixes: bool, n: string, k: nat)
    requires k < |keys| && StandsFor(keys[k], n, isStringStyle, allVendorPrefixes)
    ensures LastFor(Selected(keys, isStringStyle, allVendorPrefixes), n).Some?
  {
    var e := KeyEntry(keys[k], isStringStyle, allVendorPrefixes)[0];
    SelectedExact(keys, isStringStyle, allVendorPrefixes, e);
    var sel := Selected(keys, isStringStyle, allVendorPrefixes);
    var j :| 0 <= j < |sel| && sel[j] == e;
    assert sel[j].0 == n;
  }

  /** Registered under a constructor, an unprefixed name some selected key stands for finds
      the normalization that writes one such key. */
  lemma VendorPrefixesRegistered(t: Tables, c: JsVal, keys: seq<string>, isStringStyle: string -> bool,
                                 allVendorPrefixes: bool, n: string, k0: nat)
    requires Aligned(t) && (c.JFunction? || c.JObject?)
    requires k0 < |keys| && StandsFor(keys[k0], n, isStringStyle, allVendorPrefixes)
    ensures exists k | 0 <= k < |keys| ::
              && StandsFor(keys[k], n, isStringStyle, allVendorPrefixes)
              && Find(RegisterAll(t, Registrations(Some(c), Selected(keys, isStringStyle, allVendorPrefixes))).0, c, n)
                 == Some(VendorPrefixed(keys[k], n))
  {
    RegisterAllFind(t, c, Selected(keys, isStringStyle, allVendorPrefixes));
    SelectedName(keys, isStringStyle, allVendorPrefixes, n, k0);
    LastSelected(keys, isStringStyle, allVendorPrefixes, n);
  }

  /** Registered under a constructor, a name no selected key stands for keeps what it had,
      and so does every other constructor. */
  lemma VendorPrefixesUntouched(t: Tables, c: JsVal, keys: seq<string>, isStringStyle: string -> bool,
                                allVendorPrefixes: bool, c': JsVal, n: string)
    requires Aligned(t) && (c.JFunction? || c.JObject?)
    requires c' != c || forall k | 0 <= k < |keys| :: !StandsFor(keys[k], n, isStringStyle, allVendorPrefixes)
    ensures Find(RegisterAll(t, Registrations(Some(c), Selected(keys, isStringStyle, allVendorPrefixes))).0, c', n)
      == Find(t, c', n)
  {
    RegisterAllFind(t, c, Selected(keys, isStringStyle, allVendorPrefixes));
    if c' == c && LastFor(Selected(keys, isStringStyle, allVendorPrefixes), n).Some? {
      LastSelected(keys, isStringStyle, allVendorPrefixes, n);
    }
  }
}
