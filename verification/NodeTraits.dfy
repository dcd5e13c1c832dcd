/** Tree nodes and the accessors through which every algorithm reads and writes them. */
module NodeTraits {

  /** A node of a tree, or the header of a tree. */
  class Node {
    const key: int
    var parent: Node?
    var left: Node?
    var right: Node?
    var red: bool

    constructor (key: int)
      ensures this.key == key
      ensures parent == null && left == null && right == null && !red
    {
      this.key := key;
      parent, left, right, red := null, null, null, false;
    }
  }

  /** What a node stores besides its key. */
  datatype Cell = Cell(parent: Node?, left: Node?, right: Node?, red: bool)

  type Cells = map<Node, Cell>

  /** `m'` stores the same as `m` in every node outside `s`, and has the same nodes. */
  ghost predicate OnlyChanged(m: Cells, m': Cells, s: set<Node>) {
    m'.Keys == m.Keys && forall n <- m :: n !in s ==> m'[n] == m[n]
  }

  /** Moreover the header `h` keeps its colour and its links to the two ends. */
  ghost predicate Reshaped(m: Cells, m': Cells, h: Node, s: set<Node>) {
    && OnlyChanged(m, m', s) && h in m
    && m'[h] == m[h].(parent := m'[h].parent)
  }

  /** Of two writes to one node, the last counts. */
  lemma Overwritten(m: Cells, n: Node, a: Cell, b: Cell)
    ensures m[n := a][n := b] == m[n := b]
  {
  }

  /** The nodes in use. Every write goes through this class, and `cells` is the value
      of all of them: which node stores what. The rotations made so far are counted in `turns`. */
  class Traits {
    ghost var cells: Cells
    ghost var turns: nat

    ghost predicate Valid()
      reads this, cells.Keys
    {
      forall n <- cells :: cells[n] == Cell(n.parent, n.left, n.right, n.red)
    }

    constructor ()
      ensures Valid() && cells == map[] && turns == 0
    {
      cells, turns := map[], 0;
    }

    /** A new node, as the user's cloner or allocator makes it. */
    method NewNode(key: int) returns (n: Node)
      requires Valid()
      modifies this
      ensures Valid() && turns == old(turns) && fresh(n) && n.key == key && n !in old(cells)
      ensures cells == old(cells)[n := Cell(null, null, null, false)]
    {
      n := new Node(key);
      cells := cells[n := Cell(null, null, null, false)];
    }

    method SetParent(n: Node, x: Node?)
      requires Valid() && n in cells
      modifies this, n
      ensures Valid() && turns == old(turns) && cells == old(cells[n := cells[n].(parent := x)])
    {
      n.parent := x;
      cells := cells[n := cells[n].(parent := x)];
    }

    method SetLeft(n: Node, x: Node?)
      requires Valid() && n in cells
      modifies this, n
      ensures Valid() && turns == old(turns) && cells == old(cells[n := cells[n].(left := x)])
    {
      n.left := x;
      cells := cells[n := cells[n].(left := x)];
    }

    method SetRight(n: Node, x: Node?)
      requires Valid() && n in cells
      modifies this, n
      ensures Valid() && turns == old(turns) && cells == old(cells[n := cells[n].(right := x)])
    {
      n.right := x;
      cells := cells[n := cells[n].(right := x)];
    }

    method SetColor(n: Node, red: bool)
      requires Valid() && n in cells
      modifies this, n
      ensures Valid() && turns == old(turns) && cells == old(cells[n := cells[n].(red := red)])
    {
      n.red := red;
      cells := cells[n := cells[n].(red := red)];
    }
  }
}
