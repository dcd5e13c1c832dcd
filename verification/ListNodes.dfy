/** Nodes of circular lists, and the accessors through which every algorithm reads and writes them. */
module ListNodes {

  /** A node of a circular list: an element, or the root node of a list. */
  class ListNode {
    const value: int
    var next: ListNode?
    var previous: ListNode?

    constructor (value: int)
      ensures this.value == value
      ensures next == null && previous == null
    {
      this.value := value;
      next, previous := null, null;
    }
  }

  /** What a node stores besides its value. */
  datatype Links = Links(next: ListNode?, previous: ListNode?)

  type LinkMap = map<ListNode, Links>

  /** `m'` stores the same as `m` in every node outside `s`, and has the same nodes. */
  ghost predicate OnlyLinked(m: LinkMap, m': LinkMap, s: set<ListNode>) {
    m'.Keys == m.Keys && forall n <- m :: n !in s ==> m'[n] == m[n]
  }

  /** The nodes in use; `links` is the value of all of them. Every write goes through this class. */
  class ListTraits {
    ghost var links: LinkMap

    ghost predicate Valid()
      reads this, links.Keys
    {
      forall n <- links :: links[n] == Links(n.next, n.previous)
    }

    constructor ()
      ensures Valid() && links == map[]
    {
      links := map[];
    }

    method NewNode(value: int) returns (n: ListNode)
      requires Valid()
      modifies this
      ensures Valid() && fresh(n) && n.value == value && n !in old(links)
      ensures links == old(links)[n := Links(null, null)]
    {
      n := new ListNode(value);
      links := links[n := Links(null, null)];
    }

    method SetNext(n: ListNode, x: ListNode?)
      requires Valid() && n in links
      modifies this, n
      ensures Valid() && links == old(links[n := links[n].(next := x)])
    {
      n.next := x;
      links := links[n := links[n].(next := x)];
    }

    method SetPrevious(n: ListNode, x: ListNode?)
      requires Valid() && n in links
      modifies this, n
      ensures Valid() && links == old(links[n := links[n].(previous := x)])
    {
      n.previous := x;
      links := links[n := links[n].(previous := x)];
    }
  }
}
