/** The inner and outer width and height normalizations
    (src/Velocity/css/normalizations/dimensions.ts). The element's computed style is passed
    in as a value: its `box-sizing` and what `parseFloat` makes of each other property. */
module Dimensions {
  import opened Types
  import opened Options
  import opened Normalizations

  /** An element's computed style; a property it does not list parses to NaN. */
  datatype Box = Box(boxSizing: string, values: map<string, JsNum>)

  function Value(b: Box, name: string): (v: JsNum)
    ensures name !in b.values ==> v == NaN
  {
    if name in b.values then b.values[name] else NaN
  }

  /** The padding and border fields that separate the inner from the outer size: left and
      right for `width`, top and bottom for anything else. */
  function Fields(name: string): (f: seq<string>)
    ensures |f| == 4 && ((name == "width" || name == "height") ==> name !in f)
  {
    if name == "width" then ["paddingLeft", "paddingRight", "borderLeftWidth", "borderRightWidth"]
    else ["paddingTop", "paddingBottom", "borderTopWidth", "borderBottomWidth"]
  }

  /** The values read for `fields`. */
  function Reads(b: Box, fields: seq<string>): (v: seq<JsNum>)
    ensures |v| == |fields| && forall i | 0 <= i < |fields| :: v[i] == Value(b, fields[i])
  {
    seq(|fields|, i requires 0 <= i < |fields| => Value(b, fields[i]))
  }

  /** The sum of the values that are numbers; NaN is skipped. */
  function Sum(vals: seq<JsNum>): real
    decreases |vals|
  {
    if vals == [] then 0.0
    else
      var n := |vals| - 1;
      Sum(vals[..n]) + (if vals[n].Finite? then vals[n].x else 0.0)
  }

  /** `box-sizing` lower-cased is `border-box`. */
  predicate BorderBox(b: Box)
  {
    Lower(b.boxSizing) == "border-box"
  }

  /** What `augmentDimension` computes: when the border-box state matches `wantInner`, the
      padding and border sum, negated for an inner size; otherwise 0. */
  function Augment(b: Box, name: string, wantInner: bool): real
  {
    if BorderBox(b) == wantInner then
      var s := Sum(Reads(b, Fields(name)));
      if wantInner then -s else s
    else 0.0
  }

  /** `augmentDimension` (dimensions.ts:14-35). */
  method AugmentDimension(b: Box, name: string, wantInner: bool) returns (augment: real)
    ensures augment == Augment(b, name, wantInner)
  {
    var isBorderBox := Lower(b.boxSizing) == "border-box";
    if isBorderBox == wantInner {
      var fields := Fields(name);
      ghost var vals := Reads(b, fields);
      augment := 0.0;
      for i := 0 to |fields|
        invariant augment == Sum(vals[..i])
      {
        assert vals[..i + 1][..i] == vals[..i];
        var value := Value(b, fields[i]);
        if value.Finite? {
          augment := augment + value.x;
        }
      }
      assert vals[..|fields|] == vals;
      return if wantInner then -augment else augment;
    }
    return 0.0;
  }

  /** A NaN field contributes exactly what a zero would. */
  lemma {:induction false} SumSkipsNaN(vals: seq<JsNum>, i: nat)
    requires i < |vals|
    ensures Sum(vals[i := NaN]) == Sum(vals[i := Finite(0.0)])
    decreases |vals|
  {
    var n := |vals| - 1;
    if i < n {
      assert vals[i := NaN][..n] == vals[..n][i := NaN];
      assert vals[i := Finite(0.0)][..n] == vals[..n][i := Finite(0.0)];
      SumSkipsNaN(vals[..n], i);
    } else {
      assert vals[i := NaN][..n] == vals[..n] == vals[i := Finite(0.0)][..n];
    }
  }

  /** No field is negative. */
  predicate NonNegative(vals: seq<JsNum>)
  {
    forall i | 0 <= i < |vals| :: vals[i].Finite? ==> vals[i].x >= 0.0
  }

  lemma {:induction false} SumNonNegative(vals: seq<JsNum>)
    requires NonNegative(vals)
    ensures Sum(vals) >= 0.0
    decreases |vals|
  {
    if vals != [] {
      var n := |vals| - 1;
      assert NonNegative(vals[..n]) by {
        forall i | 0 <= i < n ensures vals[..n][i] == vals[i] { }
      }
      SumNonNegative(vals[..n]);
    }
  }

  /** With no negative padding or border, an inner size is never more than the CSS size
      and an outer size never less; either is 0 when the border-box state does not match. */
  lemma AugmentSigns(b: Box, name: string)
    requires NonNegative(Reads(b, Fields(name)))
    ensures Augment(b, name, true) <= 0.0 <= Augment(b, name, false)
    ensures BorderBox(b) ==> Augment(b, name, false) == 0.0
    ensures !BorderBox(b) ==> Augment(b, name, true) == 0.0
  {
    SumNonNegative(Reads(b, Fields(name)));
  }

  /** Outer and inner size always differ by the whole padding and border, whatever the
      `box-sizing`. */
  lemma OuterMinusInner(b: Box, name: string)
    ensures Augment(b, name, false) - Augment(b, name, true) == Sum(Reads(b, Fields(name)))
  {
  }

  /** What a normalization returns: the value read, or `true` after a write. */
  datatype Answer = Got(v: JsNum) | Done(ok: bool)

  /** `v` moved by `d`; NaN stays NaN. */
  function Offset(v: JsNum, d: real): (r: JsNum)
    ensures r.Finite? <==> v.Finite?
    ensures r.Finite? ==> r.x - d == v.x
  {
    if v.Finite? then Finite(v.x + d) else NaN
  }

  /** The setter (dimensions.ts:45-46): the value less the augment is written to the CSS
      size, and nothing else changes. */
  function SetDimension(name: string, wantInner: bool, b: Box, v: JsNum): (r: Box)
    ensures Value(r, name) == Offset(v, -Augment(b, name, wantInner))
    ensures forall f | f != name :: Value(r, f) == Value(b, f)
    ensures r.boxSizing == b.boxSizing
  {
    b.(values := b.values[name := Offset(v, -Augment(b, name, wantInner))])
  }

  /** Writing the size does not change the padding and border it is measured against. */
  lemma SetKeepsAugment(name: string, wantInner: bool, b: Box, v: JsNum, w: bool)
    requires name == "width" || name == "height"
    ensures Augment(SetDimension(name, wantInner, b, v), name, w) == Augment(b, name, w)
  {
    var r := SetDimension(name, wantInner, b, v);
    assert Reads(r, Fields(name)) == Reads(b, Fields(name));
  }

  /** `getDimension` as written (dimensions.ts:40-48): the getter returns the augment
      alone. */
  function DimensionAsWritten(name: string, wantInner: bool, b: Box, value: Option<JsNum>): (r: (Box, Answer))
  {
    match value
    case None => (b, Got(Finite(Augment(b, name, wantInner))))
    case Some(v) => (SetDimension(name, wantInner, b, v), Done(true))
  }

  /** `getDimension` with the getter reading the CSS size plus the augment, the inverse of
      the setter. */
  function DimensionNormalization(name: string, wantInner: bool, b: Box, value: Option<JsNum>): (r: (Box, Answer))
  {
    match value
    case None => (b, Got(Offset(Value(b, name), Augment(b, name, wantInner))))
    case Some(v) => (SetDimension(name, wantInner, b, v), Done(true))
  }

  /** Setting an inner or outer size and reading it back gives the value set. */
  lemma SetThenGet(name: string, wantInner: bool, b: Box, v: JsNum)
    requires name == "width" || name == "height"
    ensures var written := DimensionNormalization(name, wantInner, b, Some(v));
      written.1 == Done(true) && DimensionNormalization(name, wantInner, written.0, None) == (written.0, Got(v))
  {
    SetKeepsAugment(name, wantInner, b, v, wantInner);
  }

  /** As written, reading back gives the augment, so the value set comes back only when it
      happens to equal the augment. */
  lemma SetThenGetAsWritten(name: string, wantInner: bool, b: Box, v: JsNum)
    requires name == "width" || name == "height"
    ensures var written := DimensionAsWritten(name, wantInner, b, Some(v));
      DimensionAsWritten(name, wantInner, written.0, None).1 == Got(v) <==> v == Finite(Augment(b, name, wantInner))
  {
    SetKeepsAugment(name, wantInner, b, v, wantInner);
  }

  /** Setting `outerWidth` to 100 on a content-box element with 10 of left padding, and
      reading it back, gives 10. */
  lemma OuterWidthReadsPadding()
    ensures var b := Box("content-box", map["paddingLeft" := Finite(10.0)]);
      var written := DimensionAsWritten("width", false, b, Some(Finite(100.0)));
      DimensionAsWritten("width", false, written.0, None).1 == Got(Finite(10.0))
  {
    var b := Box("content-box", map["paddingLeft" := Finite(10.0)]);
    assert !BorderBox(b) by { assert |Lower(b.boxSizing)| == 11; }
    var vals := Reads(b, Fields("width"));
    assert vals == [Finite(10.0), NaN, NaN, NaN];
    assert vals[..1] == [Finite(10.0)] && vals[..2] == [Finite(10.0), NaN] && vals[..3] == [Finite(10.0), NaN, NaN];
    assert [Finite(10.0)][..0] == [];
    assert vals[..3][..2] == vals[..2] && vals[..2][..1] == vals[..1] && vals[..1][..0] == [];
    assert Sum(vals[..1]) == 10.0;
    assert Sum(vals[..2]) == 10.0;
    assert Sum(vals[..3]) == 10.0;
    assert Sum(vals) == 10.0;
    SetKeepsAugment("width", false, b, Finite(100.0), false);
  }

  /** The four registrations: inner and outer width and height. */
  const DIMENSIONS: seq<(string, Callable)> := [
    ("innerWidth", Dimension("width", true)), ("innerHeight", Dimension("height", true)),
    ("outerWidth", Dimension("width", false)), ("outerHeight", Dimension("height", false))]

  /** The registrations of dimensions.ts:50-53: as written (`target` is `None`) the calls
      pass `[name, callback]`; with a constructor they pass `[constructor, name, callback]`. */
  method RegisterDimensions(reg: Registry, target: Option<JsVal>)
    requires reg.Valid()
    modifies reg
    ensures reg.Valid() && reg.TablesOf() == RegisterAll(old(reg.TablesOf()), Registrations(target, DIMENSIONS)).0
    ensures reg.warnings == old(reg.warnings) + RegisterAll(old(reg.TablesOf()), Registrations(target, DIMENSIONS)).1
  {
    reg.RegisterEach(Registrations(target, DIMENSIONS));
  }

  /** As written, none of the four is registered and each call warns about its
      constructor. */
  lemma DimensionsAsWritten(t: Tables)
    requires Aligned(t)
    ensures RegisterAll(t, Registrations(None, DIMENSIONS)).0 == t
    ensures RegisterAll(t, Registrations(None, DIMENSIONS)).1 ==
      [BadConstructor(JString("innerWidth")), BadConstructor(JString("innerHeight")),
       BadConstructor(JString("outerWidth")), BadConstructor(JString("outerHeight"))]
  {
    NameFirstRegistersNothing(t, Registrations(None, DIMENSIONS));
  }

  /** Each of the four names is registered once, and no other name is. */
  lemma DimensionsLast()
    ensures LastFor(DIMENSIONS, "innerWidth") == Some(Dimension("width", true))
    ensures LastFor(DIMENSIONS, "innerHeight") == Some(Dimension("height", true))
    ensures LastFor(DIMENSIONS, "outerWidth") == Some(Dimension("width", false))
    ensures LastFor(DIMENSIONS, "outerHeight") == Some(Dimension("height", false))
    ensures forall n | n != "innerWidth" && n != "innerHeight" && n != "outerWidth" && n != "outerHeight" ::
      LastFor(DIMENSIONS, n).None?
  {
    assert DIMENSIONS[..3] == [DIMENSIONS[0], DIMENSIONS[1], DIMENSIONS[2]];
    assert DIMENSIONS[..3][..2] == [DIMENSIONS[0], DIMENSIONS[1]];
    assert DIMENSIONS[..3][..2][..1] == [DIMENSIONS[0]];
    assert DIMENSIONS[..3][..2][..1][..0] == [];
  }

  /** Registered under a constructor, each of the four names finds its normalization and
      nothing else changes. */
  lemma DimensionsRegistered(t: Tables, c: JsVal)
    requires Aligned(t) && (c.JFunction? || c.JObject?)
    ensures var r := RegisterAll(t, Registrations(Some(c), DIMENSIONS));
      && Find(r.0, c, "innerWidth") == Some(Dimension("width", true))
      && Find(r.0, c, "innerHeight") == Some(Dimension("height", true))
      && Find(r.0, c, "outerWidth") == Some(Dimension("width", false))
      && Find(r.0, c, "outerHeight") == Some(Dimension("height", false))
      && r.1 == []
    ensures forall c', n | c' != c || (n != "innerWidth" && n != "innerHeight" && n != "outerWidth" && n != "outerHeight") ::
      Find(RegisterAll(t, Registrations(Some(c), DIMENSIONS)).0, c', n) == Find(t, c', n)
  {
    RegisterAllFind(t, c, DIMENSIONS);
    DimensionsLast();
  }
}
