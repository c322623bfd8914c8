/**
 The values of the document object model: attributes in order, and nodes with their children in order.
 */
module XmlTree {
  import opened Octets
  import opened XmlBytes

  datatype Attribute = Attribute(name: bytes, value: bytes)

  datatype Node =
    | Element(name: bytes, attributes: seq<Attribute>, children: seq<Node>)
    | Text(value: bytes, cdata: bool)
    | Comment(value: bytes)
    | Unknown(value: bytes)
    | Declaration(version: bytes, encoding: bytes, standalone: bytes)

  predicate HasName(attributes: seq<Attribute>, name: bytes) {
    exists i :: 0 <= i < |attributes| && attributes[i].name == name
  }

  predicate DistinctNames(attributes: seq<Attribute>) {
    forall i, j :: 0 <= i < j < |attributes| ==> attributes[i].name != attributes[j].name
  }

  /** The codes that SetError is given while parsing. */
  datatype Error =
    | NoError
    | ParsingElement
    | FailedToReadElementName
    | ReadingElementValue
    | ReadingAttributes
    | ParsingEmpty
    | ReadingEndTag
    | ParsingUnknown
    | ParsingComment
    | ParsingDeclaration
    | ParsingCdata
    | DocumentEmpty

  /** TiXmlDocument::SetError: the first error of a run is kept. */
  function Raise(current: Error, error: Error): Error {
    if current.NoError? then error else current
  }
}
