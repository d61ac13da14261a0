/** The error the library raises (PageXMLError), split by the site that
    raises it so that the model can say which check failed first. */
module Errors {
  import opened Wrappers
  import opened Xml
  import opened Strings

  datatype PageXmlError =
    | MissingAttribute(element: string, attribute: string)
    | InvalidAttribute(element: string, attribute: string)
    | MissingElement(element: string, child: string)
    | WrongCoordinateCount(point: string)
    | InvalidCoordinates(point: string)
    | TooFewPoints(points: string)
    | InvalidRegionType(typeName: Option<string>)
    | MissingIndex
    | InvalidDate(element: string)
    | EmptyReadingOrder

  /** A parse: the parsed value or the first error raised. */
  type Parse<T> = Result<T, PageXmlError>

  /** xml.get(name), raising when the attribute is absent. */
  function RequiredAttribute(n: Node, element: string, name: string): (r: Parse<string>)
    ensures name !in n.attrs ==> r == Err(MissingAttribute(element, name))
    ensures name in n.attrs ==> r == Ok(n.attrs[name])
  {
    match Get(n, name)
    case None => Err(MissingAttribute(element, name))
    case Some(v) => Ok(v)
  }

  /** find("./tag"), raising when there is no such child. */
  function RequiredChild(n: Node, element: string, tag: string): (r: Parse<Node>)
    ensures Find(n.children, tag).None? ==> r == Err(MissingElement(element, tag))
    ensures Find(n.children, tag).Some? ==> r == Ok(Find(n.children, tag).value)
  {
    match Find(n.children, tag)
    case None => Err(MissingElement(element, tag))
    case Some(c) => Ok(c)
  }

  /** A required integer attribute: absent raises, and so does a value
      that int() rejects. */
  function RequiredInt(n: Node, element: string, name: string): (r: Parse<int>)
    ensures name !in n.attrs ==> r == Err(MissingAttribute(element, name))
    ensures name in n.attrs && ParseInt(n.attrs[name]).None? ==> r == Err(InvalidAttribute(element, name))
    ensures name in n.attrs && ParseInt(n.attrs[name]).Some? ==> r == Ok(ParseInt(n.attrs[name]).value)
  {
    var s :- RequiredAttribute(n, element, name);
    match ParseInt(s)
    case None => Err(InvalidAttribute(element, name))
    case Some(i) => Ok(i)
  }
}
