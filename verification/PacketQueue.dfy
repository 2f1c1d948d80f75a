/** The packets that wait for the worker: a linked list with a head and a last
    node (src/excom-server/client.c). */
module PacketQueue {
  import opened Packets

  class Node {
    const packet: Packet
    var next: Node?

    constructor (packet: Packet)
      ensures this.packet == packet && next == null
    {
      this.packet := packet;
      next := null;
    }
  }

  class Queue {
    var packets: Node?
    var last: Node?
    ghost var nodes: seq<Node>
    ghost var owned: set<Node>

    ghost predicate Valid()
      reads this, owned
    {
      && (forall i {:trigger nodes[i]} | 0 <= i < |nodes| :: nodes[i] in owned)
      && (forall i, j | 0 <= i < j < |nodes| :: nodes[i] != nodes[j])
      && (forall i {:trigger nodes[i]} | 0 <= i < |nodes| :: nodes[i].next == if i + 1 < |nodes| then nodes[i + 1] else null)
      && (if nodes == [] then packets == last == null
          else packets == nodes[0] && last == nodes[|nodes| - 1])
    }

    /** The packets that the list holds, first to be handled first. */
    ghost function Contents(): seq<Packet>
      reads this
    {
      seq(|nodes|, i requires 0 <= i < |nodes| reads this => nodes[i].packet)
    }

    constructor ()
      ensures Valid() && owned == {} && Contents() == []
    {
      packets, last := null, null;
      nodes, owned := [], {};
    }

    /** The parser's append. */
    method Append(packet: Packet)
      requires Valid()
      modifies this, owned
      ensures Valid() && fresh(owned - old(owned)) && Contents() == old(Contents()) + [packet]
    {
      var node := new Node(packet);
      if packets == null {
        packets, last := node, node;
      } else {
        last.next := node;
        last := node;
      }
      nodes, owned := nodes + [node], owned + {node};
    }

    /** The worker's removal of the head, as one step. */
    method Dequeue() returns (packet: Packet)
      requires Valid() && packets != null
      modifies this
      ensures Valid() && owned == old(owned) && old(Contents()) != []
      ensures packet == old(Contents())[0] && Contents() == old(Contents())[1..]
    {
      ghost var rest := nodes[1..];
      assert nodes[0].next == if 1 < |nodes| then nodes[1] else null;
      assert forall i | 0 <= i < |rest| :: rest[i] == nodes[i + 1];
      packet := packets.packet;
      packets := packets.next;
      if packets == null {
        last := null;
      }
      nodes := rest;
    }
  }
}
