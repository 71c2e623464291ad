/**
  The e-Gov law API (https://elaws.e-gov.go.jp/api/1/) as the scripts see it:
  a response is an XML document, read as the sequence of its elements in the
  document order of `root.iter()`.
 */
module EGov {
  import opened Builtins

  /** One XML element: its tag and its `text`, which is None when the element has none. */
  datatype Element = Element(tag: string, text: Option<string>)

  /**
    The two endpoints the scripts call, each a fixed function of its request:
    `lawlists/{category}` and `lawdata/{number}`.
   */
  datatype Api = Api(lawList: int -> seq<Element>, lawData: string -> seq<Element>)
}
