/** CSS property names (src/Velocity/css/names.ts): camel-casing, the SVG attribute test,
    and the vendor-prefix probe with its cache of matches. */
module Names {
  import opened Types
  import opened Options

  /** `\w` of a JavaScript regular expression: an ASCII letter, digit or underscore. */
  predicate Word(c: char)
  {
    'a' <= c <= 'z' || 'A' <= c <= 'Z' || '0' <= c <= '9' || c == '_'
  }

  /** `toUpperCase` on one ASCII character. */
  function Upper(c: char): (u: char)
    ensures 'a' <= c <= 'z' ==> u as int == c as int - 32
    ensures !('a' <= c <= 'z') ==> u == c
  {
    if 'a' <= c <= 'z' then (c as int - 32) as char else c
  }

  /** Where `/-(\w)/g` matches when it scans `s` from the left. */
  predicate MatchAt(s: string, i: nat)
  {
    i + 1 < |s| && s[i] == '-' && Word(s[i + 1])
  }

  /** How many replacements `/-(\w)/g` makes in `s`. */
  function Matches(s: string): (n: nat)
    ensures 2 * n <= |s|
    decreases |s|
  {
    if |s| < 2 then 0
    else if MatchAt(s, 0) then 1 + Matches(s[2..])
    else Matches(s[1..])
  }

  /** `camelCase` (names.ts:11-15): every `-` followed by a word character is dropped and
      the character is upper-cased, scanning left to right without overlaps. */
  function CamelCase(s: string): (r: string)
    ensures |r| == |s| - Matches(s)
    decreases |s|
  {
    if |s| < 2 then s
    else if MatchAt(s, 0) then [Upper(s[1])] + CamelCase(s[2..])
    else [s[0]] + CamelCase(s[1..])
  }

  /** A name with no `-` is returned as it is. */
  lemma {:induction false} CamelCaseNoDash(s: string)
    requires '-' !in s
    ensures CamelCase(s) == s
    decreases |s|
  {
    if |s| >= 2 {
      assert s[0] != '-';
      assert '-' !in s[1..] by {
        forall i | 0 <= i < |s[1..]| ensures s[1..][i] != '-' { assert s[1..][i] == s[i + 1]; }
      }
      CamelCaseNoDash(s[1..]);
    }
  }

  /** Camel-casing never adds a `-`: the result has one `-` fewer per replacement. */
  lemma {:induction false} CamelCaseDashes(s: string)
    ensures multiset(CamelCase(s))['-'] + Matches(s) == multiset(s)['-']
    decreases |s|
  {
    if |s| >= 2 {
      if MatchAt(s, 0) {
        CamelCaseDashes(s[2..]);
        assert s == [s[0]] + [s[1]] + s[2..];
        assert multiset(s) == multiset([s[0]]) + multiset([s[1]]) + multiset(s[2..]);
        assert Upper(s[1]) != '-';
        assert multiset(CamelCase(s)) == multiset([Upper(s[1])]) + multiset(CamelCase(s[2..]));
      } else {
        CamelCaseDashes(s[1..]);
        assert s == [s[0]] + s[1..];
        assert multiset(s) == multiset([s[0]]) + multiset(s[1..]);
        assert multiset(CamelCase(s)) == multiset([s[0]]) + multiset(CamelCase(s[1..]));
      }
    }
  }

  /** The first `-` followed by a word character is replaced, and the text before it is
      kept. */
  lemma {:induction false} CamelCaseFirstMatch(x: string, c: char, y: string)
    requires '-' !in x && Word(c)
    ensures CamelCase(x + ['-', c] + y) == x + [Upper(c)] + CamelCase(y)
    decreases |x|
  {
    if x == [] {
      assert x + ['-', c] + y == ['-', c] + y;
      assert (['-', c] + y)[2..] == y;
    } else {
      var s := x + ['-', c] + y;
      assert s[0] == x[0] && s[0] != '-';
      assert s[1..] == x[1..] + ['-', c] + y;
      assert '-' !in x[1..] by {
        forall i | 0 <= i < |x[1..]| ensures x[1..][i] != '-' { assert x[1..][i] == x[i + 1]; }
      }
      CamelCaseFirstMatch(x[1..], c, y);
      assert x == [x[0]] + x[1..];
    }
  }

  /** The example of names.ts:9: `background-color` is camel-cased to `backgroundColor`. */
  lemma BackgroundColor(s: string)
    requires s == "background-color"
    ensures CamelCase(s) == "backgroundColor"
  {
    var x, y := s[..10], s[12..];
    assert s == x + ['-', 'c'] + y;
    CamelCaseFirstMatch(x, 'c', y);
    CamelCaseNoDash(y);
  }

  /** The SVG attributes handled as element attributes; `transform` joins them under IE and
      under Android browsers other than Chrome. */
  predicate SVGAttribute(property: string, transformAsAttribute: bool)
  {
    var p := Lower(property);
    p == "width" || p == "height" || p == "x" || p == "y" || p == "cx" || p == "cy" || p == "r"
      || p == "rx" || p == "ry" || p == "x1" || p == "x2" || p == "y1" || p == "y2"
      || (transformAsAttribute && p == "transform")
  }

  /** The test is case-insensitive, and `transform` only counts where it is added. */
  lemma SVGAttributeCases()
    ensures SVGAttribute("Width", false) && SVGAttribute("CX", false) && SVGAttribute("y2", false)
    ensures !SVGAttribute("transform", false) && SVGAttribute("Transform", true)
    ensures !SVGAttribute("widths", true) && !SVGAttribute("x3", true)
  {
    assert Lower("Width") == "width";
    assert Lower("CX") == "cx";
    assert Lower("Transform") == "transform";
    assert Lower("widths") == "widths";
    assert Lower("x3") == "x3";
  }

  const VENDORS: seq<string> := ["", "Webkit", "Moz", "ms", "O"]

  /** `property.replace(/^\w/, toUpperCase)`: the first character upper-cased. */
  function CapitalizeFirst(property: string): (r: string)
    ensures |r| == |property| && (|r| > 0 ==> r[1..] == property[1..] && r[0] == Upper(property[0]))
  {
    if |property| > 0 && Word(property[0]) then [Upper(property[0])] + property[1..] else property
  }

  /** The `i`-th candidate `prefixCheck` probes: the bare name, then each vendor followed by
      the capitalised name. */
  function Candidate(property: string, i: nat): (c: string)
    requires i < |VENDORS|
    ensures i == 0 ==> c == property
    ensures i > 0 ==> c == VENDORS[i] + CapitalizeFirst(property)
  {
    if i == 0 then property else VENDORS[i] + CapitalizeFirst(property)
  }

  /** The first candidate from index `i` on that the browser supports. */
  function FirstSupported(property: string, supported: string -> bool, i: nat): (r: Option<string>)
    requires i <= |VENDORS|
    ensures r.Some? ==> supported(r.value)
    decreases |VENDORS| - i
  {
    if i == |VENDORS| then None
    else if supported(Candidate(property, i)) then Some(Candidate(property, i))
    else FirstSupported(property, supported, i + 1)
  }

  /** `FirstSupported` picks the earliest supported candidate, or none when no candidate is
      supported. */
  lemma {:induction false} FirstSupportedExact(property: string, supported: string -> bool, i: nat)
    requires i <= |VENDORS|
    ensures FirstSupported(property, supported, i).None? <==>
      forall j | i <= j < |VENDORS| :: !supported(Candidate(property, j))
    ensures FirstSupported(property, supported, i).Some? ==>
      exists j | i <= j < |VENDORS| :: FirstSupported(property, supported, i).value == Candidate(property, j)
        && forall m | i <= m < j :: !supported(Candidate(property, m))
    decreases |VENDORS| - i
  {
    if i < |VENDORS| {
      FirstSupportedExact(property, supported, i + 1);
      if !supported(Candidate(property, i)) && FirstSupported(property, supported, i + 1).Some? {
        var j :| i + 1 <= j < |VENDORS| && FirstSupported(property, supported, i + 1).value == Candidate(property, j)
          && forall m | i + 1 <= m < j :: !supported(Candidate(property, m));
        assert forall m | i <= m < j :: !supported(Candidate(property, m));
      }
    }
  }

  /** `State.prefixMatches`, the cache `prefixCheck` fills. */
  class PrefixCache {
    var prefixMatches: map<string, string>

    constructor ()
      ensures prefixMatches == map[]
    {
      prefixMatches := map[];
    }

    /** A cached match counts only when it is a non-empty string. */
    predicate Cached(property: string)
      reads this
    {
      property in prefixMatches && prefixMatches[property] != ""
    }

    /** `prefixCheck` (names.ts:31-62): a cached match is returned without probing;
        otherwise the candidates are probed in order (`supported` stands for
        `prefixElement && isString(prefixElement.style[name])`), the first supported one is
        cached and returned with `true`, and when none is the name comes back with `false`
        and the cache is left alone. */
    method PrefixCheck(property: string, supported: string -> bool) returns (name: string, ok: bool)
      modifies this
      ensures old(Cached(property)) ==>
        name == old(prefixMatches)[property] && ok && prefixMatches == old(prefixMatches)
      ensures !old(Cached(property)) && FirstSupported(property, supported, 0).Some? ==>
        && name == FirstSupported(property, supported, 0).value && ok
        && prefixMatches == old(prefixMatches)[property := name]
      ensures !old(Cached(property)) && FirstSupported(property, supported, 0).None? ==>
        name == property && !ok && prefixMatches == old(prefixMatches)
    {
      if property in prefixMatches && prefixMatches[property] != "" {
        return prefixMatches[property], true;
      }
      var i := 0;
      while i < |VENDORS|
        invariant 0 <= i <= |VENDORS|
        invariant FirstSupported(property, supported, 0) == FirstSupported(property, supported, i)
        invariant prefixMatches == old(prefixMatches)
      {
        var candidate := if i == 0 then property else VENDORS[i] + CapitalizeFirst(property);
        if supported(candidate) {
          prefixMatches := prefixMatches[property := candidate];
          return candidate, true;
        }
        i := i + 1;
      }
      return property, false;
    }
  }

  /** Once a probe succeeds, the next check of the same name returns the same answer from
      the cache, whatever the browser would now report. */
  method CheckTwice(cache: PrefixCache, property: string, supported: string -> bool, later: string -> bool)
    returns (first: string, second: string)
    requires FirstSupported(property, supported, 0).Some? && FirstSupported(property, supported, 0).value != ""
    modifies cache
    ensures first == second
  {
    var ok1, ok2;
    first, ok1 := cache.PrefixCheck(property, supported);
    second, ok2 := cache.PrefixCheck(property, later);
  }
}
