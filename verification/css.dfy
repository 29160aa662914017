/**
 * `salvation/src/style/css.rs`: matching widget elements against CSS
 * selectors, and reading the few properties whose value is the last
 * declaration that sets it. Selectors and properties are abstract
 * datatypes holding only what these functions look at; the CSS parser
 * and unit conversions are not part of this model.
 */
module Css {
  import opened Wrappers

  /** The pseudo-classes a parsed selector may carry, as the CSS parser reports them. */
  datatype PseudoClass =
    | PseudoHover
    | PseudoFocus
    | PseudoActive
    | PseudoEnabled
    | PseudoDisabled
    | PseudoCustom(name: string)
    | PseudoUnsupported

  /** `MyPseudoClass`: the pseudo-classes a widget can be in. */
  datatype MyPseudoClass = Hover | Focus | Active | Enabled | Disabled | Min | Other

  /**
   * `From<&PseudoClass> for MyPseudoClass`: the five built-in states map
   * to themselves, the custom class "min" to `Min`, anything else to `Other`.
   */
  function FromPseudoClass(p: PseudoClass): (r: MyPseudoClass)
    ensures r == Min <==> p == PseudoCustom("min")
    ensures r == Other <==> p.PseudoUnsupported? || (p.PseudoCustom? && p.name != "min")
    ensures r == Active <==> p.PseudoActive?
    ensures r == Hover <==> p.PseudoHover?
  {
    match p
    case PseudoHover => Hover
    case PseudoFocus => Focus
    case PseudoActive => Active
    case PseudoEnabled => Enabled
    case PseudoDisabled => Disabled
    case PseudoCustom(name) => if name == "min" then Min else Other
    case PseudoUnsupported => Other
  }

  /** One simple selector inside a compound selector. */
  datatype Component =
    | NonTSPseudoClass(pseudo: PseudoClass)
    | Class(className: string)
    | LocalName(lowerName: string)
    | Root
    | SelectionPseudoElement
    | OtherComponent

  /**
   * A selector as the sequence of its compound selectors; the combinators
   * between them play no part here.
   */
  datatype Selector = Selector(compounds: seq<seq<Component>>)

  /**
   * `selector_items`: the components of a selector with one compound.
   * A second, empty compound is tolerated (the `::selection` case);
   * anything more is a nested selector and yields `None`.
   */
  function SelectorItems(s: Selector): (r: Option<seq<Component>>)
    ensures |s.compounds| == 0 ==> r == Some([])
    ensures |s.compounds| == 1 ==> r == Some(s.compounds[0])
    ensures r.Some? && |s.compounds| > 0 ==> r.value == s.compounds[0]
    ensures r.None? <==> |s.compounds| > 2 || (|s.compounds| == 2 && s.compounds[1] != [])
  {
    if |s.compounds| == 0 then Some([])
    else if |s.compounds| == 1 then Some(s.compounds[0])
    else if |s.compounds| == 2 && s.compounds[1] == [] then Some(s.compounds[0])
    else None
  }

  /** `is_root`: the selector is `:root` and nothing else. */
  function IsRoot(s: Selector): (r: bool)
    ensures r <==> SelectorItems(s) == Some([Root])
  {
    match SelectorItems(s)
    case None => false
    case Some(items) =>
      assert |items| == 1 && items[0].Root? ==> items == [Root];
      |items| == 1 && items[0].Root?
  }

  /** `Element`: a widget's tag, its classes and its current pseudo-classes. */
  datatype Element = Element(tag: string, classes: set<string>, pseudoClasses: set<MyPseudoClass>)

  /** `Element::new`. */
  function NewElement(tag: string): (e: Element)
    ensures e.tag == tag && e.classes == {} && e.pseudoClasses == {}
  {
    Element(tag, {}, {})
  }

  /** `with_class`: the class joins the existing ones. */
  function WithClass(e: Element, c: string): (r: Element)
    ensures r.classes == e.classes + {c}
    ensures r.tag == e.tag && r.pseudoClasses == e.pseudoClasses
  {
    e.(classes := e.classes + {c})
  }

  /** `with_pseudo_class`: the pseudo-class joins the existing ones. */
  function WithPseudoClass(e: Element, p: MyPseudoClass): (r: Element)
    ensures r.pseudoClasses == e.pseudoClasses + {p}
    ensures r.tag == e.tag && r.classes == e.classes
  {
    e.(pseudoClasses := e.pseudoClasses + {p})
  }

  /** What one component asks of an element; unsupported components never match. */
  predicate ComponentMatches(e: Element, c: Component) {
    match c
    case NonTSPseudoClass(p) => FromPseudoClass(p) in e.pseudoClasses
    case Class(name) => name in e.classes
    case LocalName(name) => e.tag == name
    case _ => false
  }

  /**
   * `Element::matches`: a nested selector never matches; otherwise every
   * component must match, which an empty list does trivially.
   */
  method Matches(e: Element, s: Selector) returns (m: bool)
    ensures m <==> (SelectorItems(s).Some? &&
      forall i :: 0 <= i < |SelectorItems(s).value| ==> ComponentMatches(e, SelectorItems(s).value[i]))
  {
    var items := SelectorItems(s);
    if items.None? {
      return false;
    }
    var cs := items.value;
    var i := 0;
    while i < |cs|
      invariant 0 <= i <= |cs|
      invariant forall k :: 0 <= k < i ==> ComponentMatches(e, cs[k])
    {
      match cs[i] {
        case NonTSPseudoClass(p) =>
          if FromPseudoClass(p) !in e.pseudoClasses {
            return false;
          }
        case Class(name) =>
          if name !in e.classes {
            return false;
          }
        case LocalName(name) =>
          if e.tag != name {
            return false;
          }
        case _ =>
          return false;
      }
      i := i + 1;
    }
    return true;
  }

  /** Adding classes or pseudo-classes never makes a matching element stop matching. */
  lemma MatchesIsMonotone(e: Element, f: Element, c: Component)
    requires f.tag == e.tag && e.classes <= f.classes && e.pseudoClasses <= f.pseudoClasses
    ensures ComponentMatches(e, c) ==> ComponentMatches(f, c)
  {
  }

  // ---------------------------------------------------------------------
  // Properties read as "the last declaration wins"
  // ---------------------------------------------------------------------

  /** An RGBA colour. */
  datatype Color = Color(r: int, g: int, b: int, a: int)

  /** A custom property's name: only unknown (author-defined) names are looked at. */
  datatype CustomName = Unknown(name: string) | KnownCustom

  /** A token of a custom property's value. */
  datatype Token = Ident(ident: string) | Url(url: string) | OtherToken

  /** `LineStyle`, reduced to the cases `convert_border` distinguishes. */
  datatype LineStyle = LineNone | LineSolid | LineOther

  /**
   * A declaration. A payload the unit or colour converter rejects is
   * `None`; lengths are already in physical pixels.
   */
  datatype Property =
    | Custom(customName: CustomName, tokens: seq<Token>)
    | ColorProperty(color: Option<Color>)
    | Border(borderWidth: Option<int>, borderColor: Option<Color>, borderStyle: LineStyle)
    | BorderWidth(top: Option<int>)
    | BorderColor(topColor: Option<Color>)
    | BorderStyle(topStyle: LineStyle)
    | BorderRadius(topLeft: Option<int>)
    | OtherProperty

  /** `i` holds the last `Some` of `xs`. */
  predicate LastAt<T>(xs: seq<Option<T>>, i: int) {
    0 <= i < |xs| && xs[i].Some? && forall j :: i < j < |xs| ==> xs[j].None?
  }

  /** The last `Some` of a sequence, if any. */
  function Last<T>(xs: seq<Option<T>>): (r: Option<T>)
    ensures r.Some? <==> (exists i :: 0 <= i < |xs| && xs[i].Some?)
    ensures r.Some? ==> exists i :: LastAt(xs, i) && xs[i] == r
  {
    if |xs| == 0 then None
    else if xs[|xs| - 1].Some? then
      assert LastAt(xs, |xs| - 1);
      xs[|xs| - 1]
    else
      var p := xs[..|xs| - 1];
      var r := Last(p);
      assert forall i :: 0 <= i < |p| ==> p[i] == xs[i];
      assert forall i :: LastAt(p, i) ==> LastAt(xs, i);
      r
  }

  /** `Last` of a sequence extended by one element. */
  lemma {:induction false} LastOfSnoc<T>(xs: seq<Option<T>>, x: Option<T>)
    ensures Last(xs + [x]) == if x.Some? then x else Last(xs)
  {
    assert (xs + [x])[..|xs|] == xs;
  }

  /** What one declaration says about `border-collapse`, if it is a well-formed one. */
  function CollapseSetting(p: Property): Option<bool> {
    match p
    case Custom(Unknown(name), tokens) =>
      if name == "border-collapse" && |tokens| == 1 && tokens[0].Ident? then
        if tokens[0].ident == "collapse" then Some(true)
        else if tokens[0].ident == "separate" then Some(false)
        else None
      else None
    case _ => None
  }

  /** What one declaration says about `content`, if it is a single `url()`. */
  function ContentUrlSetting(p: Property): Option<string> {
    match p
    case Custom(Unknown(name), tokens) =>
      if name == "content" && |tokens| == 1 && tokens[0].Url? then Some(tokens[0].url) else None
    case _ => None
  }

  function CollapseSettings(ps: seq<Property>): (r: seq<Option<bool>>)
    ensures |r| == |ps| && forall i :: 0 <= i < |ps| ==> r[i] == CollapseSetting(ps[i])
  {
    seq(|ps|, i requires 0 <= i < |ps| => CollapseSetting(ps[i]))
  }

  function ContentUrlSettings(ps: seq<Property>): (r: seq<Option<string>>)
    ensures |r| == |ps| && forall i :: 0 <= i < |ps| ==> r[i] == ContentUrlSetting(ps[i])
  {
    seq(|ps|, i requires 0 <= i < |ps| => ContentUrlSetting(ps[i]))
  }

  /**
   * `get_border_collapse`: `false` unless some well-formed declaration
   * sets it; the last well-formed one wins and malformed ones are skipped.
   */
  method GetBorderCollapse(ps: seq<Property>) returns (v: bool)
    ensures v == Last(CollapseSettings(ps)).UnwrapOr(false)
    ensures v <==> exists i :: LastAt(CollapseSettings(ps), i) && CollapseSetting(ps[i]) == Some(true)
  {
    v := false;
    var i := 0;
    while i < |ps|
      invariant 0 <= i <= |ps|
      invariant v == Last(CollapseSettings(ps)[..i]).UnwrapOr(false)
    {
      LastOfSnoc(CollapseSettings(ps)[..i], CollapseSetting(ps[i]));
      assert CollapseSettings(ps)[..i + 1] == CollapseSettings(ps)[..i] + [CollapseSetting(ps[i])];
      var setting := CollapseSetting(ps[i]);
      if setting.Some? {
        v := setting.value;
      }
      i := i + 1;
    }
    assert CollapseSettings(ps)[..i] == CollapseSettings(ps);
    LastTrueAt(CollapseSettings(ps));
  }

  /** A boolean setting read with default `false` is true iff its last present entry is `true`. */
  lemma LastTrueAt(xs: seq<Option<bool>>)
    ensures Last(xs).UnwrapOr(false) <==> exists i :: LastAt(xs, i) && xs[i] == Some(true)
  {
    if exists i :: LastAt(xs, i) && xs[i] == Some(true) {
      var i :| LastAt(xs, i) && xs[i] == Some(true);
      var j :| LastAt(xs, j) && xs[j] == Last(xs);
      LastAtIsUnique(xs, i, j);
    }
  }

  /** Only one position holds the last present entry. */
  lemma LastAtIsUnique<T>(xs: seq<Option<T>>, i: int, j: int)
    requires LastAt(xs, i) && LastAt(xs, j)
    ensures i == j
  {
  }

  /** `convert_content_url`: the URL of the last well-formed `content` declaration. */
  method ConvertContentUrl(ps: seq<Property>) returns (r: Result<Option<string>, string>)
    ensures r.Ok?
    ensures r.value == Last(ContentUrlSettings(ps))
    ensures r.value.None? <==> forall i :: 0 <= i < |ps| ==> ContentUrlSetting(ps[i]).None?
  {
    var url: Option<string> := None;
    var i := 0;
    while i < |ps|
      invariant 0 <= i <= |ps|
      invariant url == Last(ContentUrlSettings(ps)[..i])
    {
      LastOfSnoc(ContentUrlSettings(ps)[..i], ContentUrlSetting(ps[i]));
      assert ContentUrlSettings(ps)[..i + 1] == ContentUrlSettings(ps)[..i] + [ContentUrlSetting(ps[i])];
      match ps[i] {
        case Custom(Unknown(name), tokens) =>
          if name == "content" && |tokens| == 1 && tokens[0].Url? {
            url := Some(tokens[0].url);
          }
        case _ =>
      }
      i := i + 1;
    }
    assert ContentUrlSettings(ps)[..i] == ContentUrlSettings(ps);
    assert forall k :: 0 <= k < |ps| ==> ContentUrlSettings(ps)[k] == ContentUrlSetting(ps[k]);
    return Ok(url);
  }

  /** A colour declaration whose value the colour converter rejects. */
  predicate BadColor(p: Property) {
    p.ColorProperty? && p.color.None?
  }

  /** The colour of one `color` declaration, or nothing for any other declaration. */
  function ColorSetting(p: Property): Option<Color> {
    if p.ColorProperty? then p.color else None
  }

  function ColorSettings(ps: seq<Property>): (r: seq<Option<Color>>)
    ensures |r| == |ps| && forall i :: 0 <= i < |ps| ==> r[i] == ColorSetting(ps[i])
  {
    seq(|ps|, i requires 0 <= i < |ps| => ColorSetting(ps[i]))
  }

  /**
   * `convert_main_color`: the first unconvertible `color` stops the scan
   * with an error; otherwise the last `color` wins.
   */
  method ConvertMainColor(ps: seq<Property>) returns (r: Result<Option<Color>, string>)
    ensures r.Err? <==> exists i :: 0 <= i < |ps| && BadColor(ps[i])
    ensures r.Ok? ==> r.value == Last(ColorSettings(ps))
    ensures r.Ok? ==> (r.value.None? <==> forall i :: 0 <= i < |ps| ==> !ps[i].ColorProperty?)
  {
    var color: Option<Color> := None;
    var i := 0;
    while i < |ps|
      invariant 0 <= i <= |ps|
      invariant forall k :: 0 <= k < i ==> !BadColor(ps[k])
      invariant color == Last(ColorSettings(ps)[..i])
    {
      LastOfSnoc(ColorSettings(ps)[..i], ColorSetting(ps[i]));
      assert ColorSettings(ps)[..i + 1] == ColorSettings(ps)[..i] + [ColorSetting(ps[i])];
      if ps[i].ColorProperty? {
        if ps[i].color.None? {
          return Err("unsupported color");
        }
        color := ps[i].color;
      }
      i := i + 1;
    }
    assert ColorSettings(ps)[..i] == ColorSettings(ps);
    assert forall k :: 0 <= k < |ps| ==> ColorSettings(ps)[k] == ColorSetting(ps[k]);
    return Ok(color);
  }

  /** A solid border's computed style; `None` below stands for the default style. */
  datatype ComputedBorder = ComputedBorder(width: int, color: Color, radius: int)

  /** A border declaration with a payload the converter rejects. */
  predicate BadBorder(p: Property) {
    match p
    case Border(w, c, _) => w.None? || c.None?
    case BorderWidth(w) => w.None?
    case BorderColor(c) => c.None?
    case BorderRadius(r) => r.None?
    case _ => false
  }

  function WidthSetting(p: Property): Option<int> {
    match p
    case Border(w, _, _) => w
    case BorderWidth(w) => w
    case _ => None
  }

  function BorderColorSetting(p: Property): Option<Color> {
    match p
    case Border(_, c, _) => c
    case BorderColor(c) => c
    case _ => None
  }

  function StyleSetting(p: Property): Option<LineStyle> {
    match p
    case Border(_, _, s) => Some(s)
    case BorderStyle(s) => Some(s)
    case _ => None
  }

  function RadiusSetting(p: Property): Option<int> {
    if p.BorderRadius? then p.topLeft else None
  }

  /** The four "last declaration wins" values `convert_border` gathers, before its final decision. */
  datatype BorderSettings = BorderSettings(
    width: Option<int>, color: Option<Color>, style: LineStyle, radius: Option<int>)

  function WidthSettings(ps: seq<Property>): (r: seq<Option<int>>)
    ensures |r| == |ps| && forall i :: 0 <= i < |ps| ==> r[i] == WidthSetting(ps[i])
  {
    seq(|ps|, i requires 0 <= i < |ps| => WidthSetting(ps[i]))
  }

  function BorderColorSettings(ps: seq<Property>): (r: seq<Option<Color>>)
    ensures |r| == |ps| && forall i :: 0 <= i < |ps| ==> r[i] == BorderColorSetting(ps[i])
  {
    seq(|ps|, i requires 0 <= i < |ps| => BorderColorSetting(ps[i]))
  }

  function StyleSettings(ps: seq<Property>): (r: seq<Option<LineStyle>>)
    ensures |r| == |ps| && forall i :: 0 <= i < |ps| ==> r[i] == StyleSetting(ps[i])
  {
    seq(|ps|, i requires 0 <= i < |ps| => StyleSetting(ps[i]))
  }

  function RadiusSettings(ps: seq<Property>): (r: seq<Option<int>>)
    ensures |r| == |ps| && forall i :: 0 <= i < |ps| ==> r[i] == RadiusSetting(ps[i])
  {
    seq(|ps|, i requires 0 <= i < |ps| => RadiusSetting(ps[i]))
  }

  /** `Last` is the entry at whichever position holds the last present one. */
  lemma LastIsAtLastAt<T>(xs: seq<Option<T>>)
    ensures forall i :: LastAt(xs, i) ==> Last(xs) == xs[i]
  {
    forall i | LastAt(xs, i)
      ensures Last(xs) == xs[i]
    {
      var k :| LastAt(xs, k) && xs[k] == Last(xs);
      LastAtIsUnique(xs, i, k);
    }
  }

  /**
   * Each border setting comes from the last declaration that sets it:
   * unset without one, and the style `none` when no declaration sets it.
   */
  function Gather(ps: seq<Property>): (g: BorderSettings)
    ensures (forall i :: 0 <= i < |ps| ==> WidthSetting(ps[i]).None?) ==> g.width.None?
    ensures forall i :: LastAt(WidthSettings(ps), i) ==> g.width == WidthSetting(ps[i])
    ensures (forall i :: 0 <= i < |ps| ==> BorderColorSetting(ps[i]).None?) ==> g.color.None?
    ensures forall i :: LastAt(BorderColorSettings(ps), i) ==> g.color == BorderColorSetting(ps[i])
    ensures (forall i :: 0 <= i < |ps| ==> StyleSetting(ps[i]).None?) ==> g.style == LineNone
    ensures forall i :: LastAt(StyleSettings(ps), i) ==> Some(g.style) == StyleSetting(ps[i])
    ensures (forall i :: 0 <= i < |ps| ==> RadiusSetting(ps[i]).None?) ==> g.radius.None?
    ensures forall i :: LastAt(RadiusSettings(ps), i) ==> g.radius == RadiusSetting(ps[i])
  {
    LastIsAtLastAt(WidthSettings(ps));
    LastIsAtLastAt(BorderColorSettings(ps));
    LastIsAtLastAt(StyleSettings(ps));
    LastIsAtLastAt(RadiusSettings(ps));
    BorderSettings(
      Last(WidthSettings(ps)),
      Last(BorderColorSettings(ps)),
      Last(StyleSettings(ps)).UnwrapOr(LineNone),
      Last(RadiusSettings(ps)))
  }

  /**
   * `convert_border`'s decision: no border style gives the default
   * (`None` here), a solid one takes its width and radius (0 when unset)
   * and its colour (the text colour when unset), any other style fails.
   */
  function BorderFromSettings(g: BorderSettings, textColor: Color): (r: Result<Option<ComputedBorder>, string>)
    ensures g.style == LineNone <==> r == Ok(None)
    ensures g.style == LineOther <==> r.Err?
    ensures g.style == LineSolid ==> (r.Ok? && r.value.Some? &&
      r.value.value.color == (if g.color.Some? then g.color.value else textColor) &&
      r.value.value.width == g.width.UnwrapOr(0) && r.value.value.radius == g.radius.UnwrapOr(0))
  {
    match g.style
    case LineNone => Ok(None)
    case LineSolid => Ok(Some(ComputedBorder(g.width.UnwrapOr(0), g.color.UnwrapOr(textColor), g.radius.UnwrapOr(0))))
    case LineOther => Err("unsupported border line style")
  }

  /** `convert_border`: the first unconvertible border payload is an error. */
  function ConvertBorder(ps: seq<Property>, textColor: Color): (r: Result<Option<ComputedBorder>, string>)
    ensures (exists i :: 0 <= i < |ps| && BadBorder(ps[i])) ==> r.Err?
    ensures (forall i :: 0 <= i < |ps| ==> !BadBorder(ps[i])) ==>
              (r == Ok(None) <==> Gather(ps).style == LineNone) &&
              (r.Err? <==> Gather(ps).style == LineOther)
    ensures (forall i :: 0 <= i < |ps| ==> !BadBorder(ps[i])) && Gather(ps).style == LineSolid ==>
              r.Ok? && r.value.Some? &&
              r.value.value.width == Gather(ps).width.UnwrapOr(0) &&
              r.value.value.radius == Gather(ps).radius.UnwrapOr(0) &&
              r.value.value.color == Gather(ps).color.UnwrapOr(textColor)
  {
    if exists i :: 0 <= i < |ps| && BadBorder(ps[i]) then Err("unsupported border value")
    else BorderFromSettings(Gather(ps), textColor)
  }

  /** With no border declarations at all, the default border is chosen and the text colour plays no part. */
  lemma NoBorderDeclarationsGiveDefault(ps: seq<Property>, textColor: Color)
    requires forall i :: 0 <= i < |ps| ==> StyleSetting(ps[i]).None? && !BadBorder(ps[i])
    ensures ConvertBorder(ps, textColor) == Ok(None)
  {
  }

  /**
   * A trailing `border-style` declaration decides the outcome whatever
   * came before it: `none` gives the default border and any unsupported
   * style an error.
   */
  lemma {:induction false} LastBorderStyleDecides(ps: seq<Property>, style: LineStyle, textColor: Color)
    requires forall i :: 0 <= i < |ps| ==> !BadBorder(ps[i])
    ensures Gather(ps + [BorderStyle(style)]).style == style
    ensures style == LineNone ==> ConvertBorder(ps + [BorderStyle(style)], textColor) == Ok(None)
    ensures style == LineOther ==> ConvertBorder(ps + [BorderStyle(style)], textColor).Err?
  {
    var qs := ps + [BorderStyle(style)];
    assert LastAt(StyleSettings(qs), |ps|);
    assert forall i :: 0 <= i < |qs| ==> !BadBorder(qs[i]);
  }
}
