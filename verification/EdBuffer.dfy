/**
 ed's line buffer: a circular list of line nodes around a head, and a cursor that remembers the node
 looked up last and its number.
 */
module EdBuffer {

  const ERR := -2

  class Line {
    var q_forw: Line?
    var q_back: Line?

    constructor ()
    {
      q_forw, q_back := null, null;
    }
  }

  /** REQUE: link `pred` before `succ`. */
  method Reque(pred: Line, succ: Line)
    modifies pred`q_forw, succ`q_back
    ensures pred.q_forw == succ && succ.q_back == pred
  {
    pred.q_forw := succ;
    succ.q_back := pred;
  }

  ghost predicate Distinct(nodes: seq<Line>) {
    forall i, j :: 0 <= i < j < |nodes| ==> nodes[i] != nodes[j]
  }

  /** The nodes form a ring in this order. */
  ghost predicate Ring(nodes: seq<Line>)
    reads nodes
  {
    && nodes != [] && Distinct(nodes)
    && (forall i :: 0 <= i < |nodes| - 1 ==> nodes[i].q_forw == nodes[i + 1] && nodes[i + 1].q_back == nodes[i])
    && nodes[|nodes| - 1].q_forw == nodes[0] && nodes[0].q_back == nodes[|nodes| - 1]
  }

  lemma InsertedDistinct(nodes: seq<Line>, at: nat, line: Line)
    requires Distinct(nodes) && at < |nodes| && line !in nodes
    ensures Distinct(nodes[..at + 1] + [line] + nodes[at + 1..])
  {
  }

  /** The links of a ring but for a node to come after number `at`. */
  ghost predicate NewLinks(nodes: seq<Line>, at: nat, line: Line)
    reads nodes, line
  {
    && Distinct(nodes) && at < |nodes| && line !in nodes
    && nodes[at].q_forw == line && line.q_back == nodes[at]
    && var last := |nodes| - 1;
       var succ := if at < last then nodes[at + 1] else nodes[0];
       && line.q_forw == succ && succ.q_back == line
       && (forall i :: 0 <= i < last && i != at ==> nodes[i].q_forw == nodes[i + 1] && nodes[i + 1].q_back == nodes[i])
       && (at < last ==> nodes[last].q_forw == nodes[0] && nodes[0].q_back == nodes[last])
  }

  lemma Inserted(nodes: seq<Line>, at: nat, line: Line)
    requires NewLinks(nodes, at, line)
    ensures Ring(nodes[..at + 1] + [line] + nodes[at + 1..])
  {
    var after := nodes[..at + 1] + [line] + nodes[at + 1..];
    InsertedDistinct(nodes, at, line);
    forall i | 0 <= i < |after| - 1 ensures after[i].q_forw == after[i + 1] && after[i + 1].q_back == after[i] {
      if i < at {
        assert after[i] == nodes[i] && after[i + 1] == nodes[i + 1];
      } else if i > at + 1 {
        assert after[i] == nodes[i - 1] && after[i + 1] == nodes[i];
      }
    }
  }

  class Buffer {
    const buffer_head: Line
    var addr_last: nat
    var current_addr: nat
    /** The static cursor. */
    var lp: Line
    var on: nat
    /** The head, and after it the lines in order. */
    ghost var nodes: seq<Line>

    ghost predicate Valid()
      reads this, nodes
    {
      && Ring(nodes) && nodes[0] == buffer_head && |nodes| == addr_last + 1 && current_addr <= addr_last
      && on <= addr_last && lp == nodes[on]
    }

    constructor ()
      ensures Valid() && addr_last == 0 && fresh(buffer_head)
    {
      var head := new Line();
      head.q_forw, head.q_back := head, head;
      buffer_head, lp, nodes := head, head, [head];
      addr_last, current_addr, on := 0, 0, 0;
    }

    /** `get_addressed_line_node`: the node of a line, by the shortest of four walks. */
    method GetAddressedLineNode(n: nat) returns (node: Line)
      requires Valid() && n <= addr_last
      modifies `lp, `on
      ensures Valid() && on == n && lp == node == nodes[n]
    {
      if n > on {
        if n <= (on + addr_last) / 2 {
          while on < n
            invariant on <= n && lp == nodes[on]
          {
            Before(on);
            lp := lp.q_forw;
            on := on + 1;
          }
        } else {
          lp := buffer_head.q_back;
          on := addr_last;
          while on > n
            invariant n <= on <= addr_last && lp == nodes[on]
          {
            Behind(on);
            lp := lp.q_back;
            on := on - 1;
          }
        }
      } else {
        if n >= on / 2 {
          while on > n
            invariant n <= on <= addr_last && lp == nodes[on]
          {
            Behind(on);
            lp := lp.q_back;
            on := on - 1;
          }
        } else {
          lp := buffer_head;
          on := 0;
          while on < n
            invariant on <= n && lp == nodes[on]
          {
            Before(on);
            lp := lp.q_forw;
            on := on + 1;
          }
        }
      }
      return lp;
    }

    lemma Successor(i: nat)
      requires Ring(nodes) && i < |nodes|
      ensures nodes[i].q_forw == if i < |nodes| - 1 then nodes[i + 1] else nodes[0]
    {
    }

    lemma Before(i: nat)
      requires Ring(nodes) && i < |nodes| - 1
      ensures nodes[i].q_forw == nodes[i + 1]
    {
    }

    lemma Behind(i: nat)
      requires Ring(nodes) && 0 < i < |nodes|
      ensures nodes[i].q_back == nodes[i - 1]
    {
      assert nodes[(i - 1) + 1].q_back == nodes[i - 1];
    }

    /** `add_line_node`: a line after the current one, which becomes the current one. */
    method AddLineNode(line: Line)
      requires Valid() && line !in nodes
      modifies this, nodes, line
      ensures Valid() && nodes == old(nodes)[..old(current_addr) + 1] + [line] + old(nodes)[old(current_addr) + 1..]
      ensures addr_last == old(addr_last) + 1 && current_addr == old(current_addr) + 1
    {
      var cp := GetAddressedLineNode(current_addr);
      ghost var at, before := current_addr, nodes;
      Link(line, cp, at);
      nodes := nodes[..at + 1] + [line] + nodes[at + 1..];
      Inserted(before, at, line);
      addr_last := addr_last + 1;
      current_addr := current_addr + 1;
    }

    /** INSQUE: the new node between `cp` and what followed it. */
    method Link(line: Line, cp: Line, ghost at: nat)
      requires Ring(nodes) && at < |nodes| && cp == nodes[at] && line !in nodes
      modifies line, cp`q_forw, nodes`q_back
      ensures NewLinks(nodes, at, line)
    {
      Successor(at);
      var succ := cp.q_forw;
      Reque(line, succ);
      Reque(cp, line);
    }

    /** `get_line_node_addr`: the number of a node. */
    method GetLineNodeAddr(node: Line) returns (n: int)
      requires Valid()
      ensures node in nodes ==> 0 <= n < |nodes| && nodes[n] == node
      ensures node !in nodes ==> n == if addr_last > 0 then ERR else 0
    {
      var cp := buffer_head;
      n := 0;
      while cp != node
        invariant 0 <= n < |nodes| && cp == nodes[n] && forall k :: 0 <= k < n ==> nodes[k] != node
        decreases |nodes| - n
      {
        cp := cp.q_forw;
        if cp == buffer_head {
          Around(n);
          break;
        }
        n := n + 1;
      }
      if n != 0 && cp == buffer_head {
        return ERR;
      }
    }

    /** Only after the last node the head comes again. */
    lemma Around(n: nat)
      requires Ring(nodes) && n < |nodes| && nodes[n].q_forw == nodes[0]
      ensures n == |nodes| - 1
    {
      Successor(n);
    }
  }

  /** The two lookups are inverse: a line's number leads to its node and back. */
  method Inverse(b: Buffer, n: nat) returns (back: int)
    requires b.Valid() && n <= b.addr_last
    modifies b`lp, b`on
    ensures b.Valid() && back == n
  {
    var node := b.GetAddressedLineNode(n);
    back := b.GetLineNodeAddr(node);
    assert b.nodes[back] == b.nodes[n];
  }
}
