/** Documents as values: what a DOM tree says, apart from how its nodes are linked. */
module Xml {
  import opened Bytes

  datatype Attr = Attr(name: bytes, value: bytes)

  predicate DistinctNames(attrs: seq<Attr>) {
    forall i, j | 0 <= i < j < |attrs| :: attrs[i].name != attrs[j].name
  }

  datatype Tree =
    | Element(name: bytes, attrs: seq<Attr>, kids: seq<Tree>)
    | Text(value: bytes)
    | CData(value: bytes)

  /** What a reader of a document meets, in order. */
  datatype Event =
    | StartEvent(name: bytes)
    | AttrEvent(attr: Attr)
    | TextEvent(value: bytes)
    | CDataEvent(value: bytes)
    | EndEvent(name: bytes)

  function AttrEvents(attrs: seq<Attr>): seq<Event> {
    if attrs == [] then [] else AttrEvents(attrs[..|attrs| - 1]) + [AttrEvent(attrs[|attrs| - 1])]
  }

  function Linear(t: Tree): seq<Event> {
    match t
    case Element(name, attrs, kids) => [StartEvent(name)] + AttrEvents(attrs) + Linears(kids) + [EndEvent(name)]
    case Text(v) => [TextEvent(v)]
    case CData(v) => [CDataEvent(v)]
  }

  /** The linearisation of a list of siblings. */
  function Linears(ts: seq<Tree>): seq<Event> {
    if ts == [] then [] else Linears(ts[..|ts| - 1]) + Linear(ts[|ts| - 1])
  }
}
