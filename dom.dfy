/**
 * The part of the document object model the page script touches.
 *
 * An element's class list is a set of class names; its inline style is
 * reduced to the two properties the reveal animations write (opacity and
 * transform). The one attribute the modelled handlers read, `href`, is a
 * constant.
 * Elements the script only measures (sections and anchor targets) are
 * values, see `Placed`.
 */
module Dom {

  class Element {
    var classes: set<string>
    var opacity: string
    var transform: string
    const href: string

    constructor (classes: set<string>, href: string)
      ensures this.classes == classes && this.href == href
      ensures opacity == "" && transform == ""
    {
      this.classes := classes;
      this.href := href;
      opacity := "";
      transform := "";
    }
  }

  /** The elements of a node list, as a set. */
  function Members(nodes: seq<Element>): (r: set<Element>)
    ensures forall i :: 0 <= i < |nodes| ==> nodes[i] in r
    ensures forall e :: e in r ==> exists i :: 0 <= i < |nodes| && nodes[i] == e
  {
    set i | 0 <= i < |nodes| :: nodes[i]
  }

  /** An element carrying an `id`, with its distance from the top of the document. */
  datatype Placed = Placed(id: string, offsetTop: int)
}
