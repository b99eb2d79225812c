/** The service's list of open connections (src/ipc/ipc_server.c), whose removal gives up after 10000 nodes. */
module ConnectionList {
  import opened LinkedNodes
  import opened Lookup

  const MAX_ITERATIONS: nat := 10000

  datatype Connection = Connection(fd: int, pid: int)

  function Descriptors(list: seq<Connection>): (fds: seq<int>)
    ensures |fds| == |list|
  {
    seq(|list|, i requires 0 <= i < |list| => list[i].fd)
  }

  /** The first connection with this descriptor, or the length. */
  function Place(list: seq<Connection>, fd: int): (i: nat)
    ensures i <= |list|
    ensures i < |list| ==> list[i].fd == fd
    ensures forall k :: 0 <= k < i ==> list[k].fd != fd
  {
    var fds := Descriptors(list);
    assert forall k :: 0 <= k < |list| ==> fds[k] == list[k].fd;
    Find(fds, fd)
  }

  /** The connection is among the nodes remove_connection looks at. */
  predicate Reached(list: seq<Connection>, fd: int) {
    Place(list, fd) < |list| && Place(list, fd) < MAX_ITERATIONS
  }

  function Removed(list: seq<Connection>, fd: int): seq<Connection> {
    var i := Place(list, fd);
    if Reached(list, fd) then list[..i] + list[i + 1..] else list
  }

  ghost predicate DistinctFds(list: seq<Connection>) {
    forall i, j :: 0 <= i < j < |list| ==> list[i].fd != list[j].fd
  }

  predicate Open(list: seq<Connection>, fd: int) {
    Place(list, fd) < |list|
  }

  lemma RemovedKeepsOthers(list: seq<Connection>, i: nat, c: Connection)
    requires i < |list| && c != list[i]
    ensures c in list[..i] + list[i + 1..] <==> c in list
  {
    if c in list {
      var k :| 0 <= k < |list| && list[k] == c;
      assert c == (list[..i] + list[i + 1..])[if k < i then k else k - 1];
    }
  }

  lemma RemovedIsClosed(list: seq<Connection>, i: nat)
    requires i < |list| && DistinctFds(list)
    ensures DistinctFds(list[..i] + list[i + 1..]) && !Open(list[..i] + list[i + 1..], list[i].fd)
  {
    var after := list[..i] + list[i + 1..];
    forall k | 0 <= k < |after| ensures after[k].fd != list[i].fd {
      assert after[k] == list[if k < i then k else k + 1];
    }
  }

  /** Removal keeps the descriptors distinct, keeps every other connection, and drops its own exactly when fewer than
      10000 newer connections stand before it. */
  lemma RemovedDropsIff(list: seq<Connection>, fd: int)
    requires DistinctFds(list)
    ensures DistinctFds(Removed(list, fd))
    ensures Open(Removed(list, fd), fd) <==> Open(list, fd) && Place(list, fd) >= MAX_ITERATIONS
    ensures forall c: Connection :: c.fd != fd ==> (c in Removed(list, fd) <==> c in list)
  {
    if Reached(list, fd) {
      RemovedIsClosed(list, Place(list, fd));
      forall c: Connection | c.fd != fd ensures c in Removed(list, fd) <==> c in list {
        RemovedKeepsOthers(list, Place(list, fd), c);
      }
    }
  }

  /** A list on which removal does nothing: ten thousand newer connections, and the one to be removed behind them. */
  lemma NotRemoved()
    ensures var list := seq(MAX_ITERATIONS, i requires 0 <= i < MAX_ITERATIONS => Connection(i + 1, 0)) +
                        [Connection(0, 0)];
            DistinctFds(list) && Open(list, 0) && Removed(list, 0) == list
  {
    var newer := seq(MAX_ITERATIONS, i requires 0 <= i < MAX_ITERATIONS => Connection(i + 1, 0));
    PlaceFound(newer + [Connection(0, 0)], 0, MAX_ITERATIONS);
  }

  class Connections {
    const list: NodeList<Connection>

    ghost predicate Valid() reads this, list, list.spine {
      list.Valid()
    }

    constructor ()
      ensures Valid() && fresh(list) && list.Items() == []
    {
      list := new NodeList<Connection>();
    }

    /** add_connection: the newest connection stands first. */
    method Add(fd: int, pid: int)
      requires Valid()
      modifies list
      ensures Valid() && list.Items() == [Connection(fd, pid)] + old(list.Items())
    {
      list.PushFront(Connection(fd, pid));
    }

    /** remove_connection */
    method Remove(fd: int)
      requires Valid()
      modifies list, list.spine
      ensures Valid() && list.Items() == Removed(old(list.Items()), fd)
    {
      var previous: Node?<Connection> := null;
      var current := list.head;
      var iterations := 0;
      while current != null && iterations < MAX_ITERATIONS
        invariant 0 <= iterations <= |list.spine| && iterations <= MAX_ITERATIONS
        invariant current == NodeOf(list.spine, iterations)
        invariant if iterations == 0 then previous == null else previous == list.spine[iterations - 1]
        invariant forall k :: 0 <= k < iterations ==> list.Items()[k].fd != fd
        invariant unchanged(list) && unchanged(list.spine)
        decreases MAX_ITERATIONS - iterations
      {
        assert list.Items()[iterations] == current.info;
        if current.info.fd == fd {
          PlaceFound(list.Items(), fd, iterations);
          list.Unlink(previous, current, iterations);
          return;
        }
        iterations := iterations + 1;
        previous := current;
        current := current.next;
      }
      assert Place(list.Items(), fd) >= iterations;
    }
  }

  lemma PlaceFound(list: seq<Connection>, fd: int, i: nat)
    requires i < |list| && list[i].fd == fd && forall k :: 0 <= k < i ==> list[k].fd != fd
    ensures Place(list, fd) == i
  {
  }
}
