/** A loaded YAML document as the round-trip loader hands it over: mappings, sequences and
    scalars, each with the optional attributes the modelled code reads from them. */
module Yaml {
  import opened Base

  datatype Scalar = SStr(s: string) | SInt(i: int) | SFloat(f: real) | SBool(b: bool) | SNull

  /** The loader's anchor object; `name` is its `value` attribute. */
  datatype Anchor = Anchor(name: Option<string>, alwaysDump: bool)

  /** Optional attributes of a loaded object: the 0-based `lc.line`, present only when the
      object has `lc`, and the `anchor` attribute, present only when the object has one. */
  datatype Meta = Meta(line: Option<int>, anchor: Option<Anchor>)

  /** A plain Python scalar, or a `ScalarString` with its `style` attribute. */
  datatype StrKind = PlainScalar | ScalarString(style: Option<char>)

  /** A loaded object. `YOther` is any other object the loader builds (a tagged scalar, a
      timestamp); `valueAttr` is its `value` attribute when it has one, as a tagged scalar
      does. Mappings, sequences and plain scalars have no `value` attribute. */
  datatype YValue =
    | YScalar(s: Scalar, kind: StrKind, meta: Meta)
    | YMap(entries: seq<(string, YValue)>, meta: Meta)
    | YSeq(items: seq<YValue>, meta: Meta)
    | YOther(tag: string, valueAttr: Option<YValue>, meta: Meta)

  /** A loaded object that is not a mapping. */
  type RawValue = y: YValue | !y.YMap? witness YOther("", None, Meta(None, None))

  /** What Python's `==` sees of a value: no anchors, no line numbers, no quoting. */
  datatype Plain =
    | PScalar(s: Scalar)
    | PMap(entries: seq<(string, Plain)>)
    | PSeq(items: seq<Plain>)
    | POther(tag: string)
    | PPair(first: Plain, second: Plain)

  function Content(y: YValue): Plain
  {
    match y
    case YScalar(s, _, _) => PScalar(s)
    case YMap(es, _) => PMap(seq(|es|, i requires 0 <= i < |es| => (es[i].0, Content(es[i].1))))
    case YSeq(items, _) => PSeq(seq(|items|, i requires 0 <= i < |items| => Content(items[i])))
    case YOther(tag, _, _) => POther(tag)
  }

  /** `getattr(getattr(node, "anchor", None), "value", None)` */
  function AnchorNameOf(y: YValue): Option<string>
  {
    if y.meta.anchor.Some? then y.meta.anchor.value.name else None
  }

  /** `_unwrap_value`: `getattr(node, "value", node)`. */
  function Unwrap(y: YValue): YValue
  {
    if y.YOther? && y.valueAttr.Some? then y.valueAttr.value else y
  }

  /** Python truthiness of a loaded object. */
  predicate IsTruthy(y: YValue)
  {
    match y
    case YScalar(s, _, _) =>
      (match s
       case SStr(t) => t != ""
       case SInt(i) => i != 0
       case SFloat(f) => f != 0.0
       case SBool(b) => b
       case SNull => false)
    case YMap(es, _) => es != []
    case YSeq(items, _) => items != []
    case YOther(_, _, _) => true
  }
}
