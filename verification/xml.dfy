/** The part of an XML element tree the feed readers look at. */
module Xml {
  import opened Wrappers
  import opened Text

  /** An element: its text (`None` for an element without text) and its attributes. */
  datatype Element = Element(text: Option<String>, attrib: map<String, String>)

  /** `element.get(key)` compared with a value: false when the attribute is missing. */
  predicate AttribIs(e: Element, key: String, value: String) {
    key in e.attrib && e.attrib[key] == value
  }
}
