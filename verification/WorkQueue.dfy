/** The connection queue (queue.c): a singly linked list with head and tail pointers. */
module WorkQueue {
  import opened Text

  /** A connection handle. */
  datatype Connection = Connection(socket: int)

  class Entry {
    const connection: Connection
    var next: Entry?

    constructor (connection: Connection)
      ensures this.connection == connection && next == null
    {
      this.connection := connection;
      this.next := null;
    }
  }

  /** The connections held by a list of entries. */
  ghost function Handles(es: seq<Entry>): (s: seq<Connection>)
    ensures |s| == |es| && forall i | 0 <= i < |es| :: s[i] == es[i].connection
  {
    if es == [] then [] else [es[0].connection] + Handles(es[1..])
  }

  ghost function Successor(es: seq<Entry>, i: nat): Entry? {
    if i + 1 < |es| then es[i + 1] else null
  }

  /** `spine` lists the entries from head to tail.  When the queue is empty the tail may point anywhere:
      emptying the queue leaves it on the last entry popped. */
  class Queue {
    var head: Entry?
    var tail: Entry?
    ghost var spine: seq<Entry>

    ghost predicate Valid()
      reads this, spine
    {
      && (forall i, j | 0 <= i < j < |spine| :: spine[i] != spine[j])
      && (spine == [] <==> head == null)
      && (spine != [] ==> head == spine[0] && tail == spine[|spine| - 1])
      && (forall i | 0 <= i < |spine| :: spine[i].next == Successor(spine, i))
    }

    ghost function Contents(): (s: seq<Connection>)
      reads this
    {
      Handles(spine)
    }

    constructor ()
      ensures Valid() && Contents() == []
    {
      head, tail, spine := null, null, [];
    }

    /** The list without its first entry. */
    lemma DropHead()
      requires Valid() && spine != []
      ensures spine[0].next == Successor(spine, 0) && Handles(spine[1..]) == Handles(spine)[1..]
      ensures forall i | 0 <= i < |spine| - 1 :: spine[1..][i].next == Successor(spine[1..], i)
    {
      assert Handles(spine)[1..] == Handles(spine[1..]);
      forall i | 0 <= i < |spine| - 1
        ensures spine[1..][i].next == Successor(spine[1..], i)
      {
        assert spine[1..][i] == spine[i + 1] && spine[i + 1].next == Successor(spine, i + 1);
      }
    }

    /** Linking a new entry behind the tail of a list that is not empty. */
    method Link(entry: Entry)
      requires Valid() && spine != [] && entry !in spine && entry.next == null
      modifies this, tail
      ensures Valid() && spine == old(spine) + [entry]
    {
      tail.next := entry;
      tail := entry;
      spine := spine + [entry];
    }

    /** The list part of queue_push_connection. */
    method Push(connection: Connection)
      requires Valid()
      modifies this, spine
      ensures Valid() && fresh(set e | e in spine && e !in old(spine))
      ensures Contents() == old(Contents()) + [connection]
    {
      var entry := new Entry(connection);
      HandlesSnoc(spine, entry);
      if head == null {
        head := entry;
        tail := entry;
        spine := [entry];
      } else {
        Link(entry);
      }
    }

    /** queue_pop_connection: null when empty, else the oldest connection. */
    method Pop() returns (r: Option<Connection>)
      requires Valid()
      modifies this
      ensures Valid()
      ensures old(Contents()) == [] ==> r == None && Contents() == []
      ensures old(Contents()) != [] ==> r == Some(old(Contents())[0]) && Contents() == old(Contents())[1..]
    {
      if head == null {
        return None;
      }
      DropHead();
      var entry := head;
      head := head.next;
      spine := spine[1..];
      r := Some(entry.connection);
    }
  }

  lemma {:induction false} HandlesSnoc(es: seq<Entry>, e: Entry)
    ensures Handles(es + [e]) == Handles(es) + [e.connection]
  {
    if es == [] {
      assert es + [e] == [e];
    } else {
      assert (es + [e])[1..] == es[1..] + [e];
      HandlesSnoc(es[1..], e);
    }
  }
}
