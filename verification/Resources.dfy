/**
 * Who holds what: each collector has a main and a replacement connection, and each
 * resource (socket or SSL object) that is in use is held in exactly one place.
 */
module Resources {
  import opened Options
  import opened Wire

  /**
   * A socket of -1 and an absent SSL object mean that nothing is held.  What has happened to
   * the SSL object is kept with it: its handshake is over and the peer, where its name is
   * known, has been verified; the templates have been offered over it.
   */
  datatype Connection = Connection(socket: int, ssl: Option<nat>, established: bool, informed: bool)

  datatype CollectorState = Unused | New | Disconnected | Connected

  datatype Protocol = DtlsOverUdp | DtlsOverSctp | Udp | OtherProtocol

  datatype Collector = Collector(
    state: CollectorState, protocol: Protocol, mtuDiscover: bool, mtu: U16,
    main: Connection, replacement: Connection)

  const NOTHING := Connection(-1, None, false, false)

  /** A connection of a collector: the main one or the replacement. */
  datatype Place = Place(i: nat, main: bool)

  function ConnectionAt(c: Collector, main: bool): Connection {
    if main then c.main else c.replacement
  }

  function WithConnection(c: Collector, main: bool, con: Connection): Collector {
    if main then c.(main := con) else c.(replacement := con)
  }

  function SocketOf(con: Connection): Option<int> { if con.socket == -1 then None else Some(con.socket) }

  function SslOf(con: Connection): Option<nat> { con.ssl }

  /** What a place holds. */
  function KeyAt<K>(cols: seq<Collector>, key: Connection -> Option<K>, i: nat, b: bool): Option<K>
    requires i < |cols|
  {
    key(ConnectionAt(cols[i], b))
  }

  /** The table of owners knows about what a place holds. */
  ghost predicate Owned<K>(owner: map<K, Place>, cols: seq<Collector>, key: Connection -> Option<K>, i: nat, b: bool)
    requires i < |cols|
  {
    KeyAt(cols, key, i, b).Some? ==>
      KeyAt(cols, key, i, b).value in owner && owner[KeyAt(cols, key, i, b).value] == Place(i, b)
  }

  /** The table of owners says exactly which place holds which resource. */
  ghost predicate Tracks<K(!new)>(owner: map<K, Place>, cols: seq<Collector>, key: Connection -> Option<K>) {
    && (forall k :: k in owner ==> owner[k].i < |cols| && KeyAt(cols, key, owner[k].i, owner[k].main) == Some(k))
    && (forall i: nat, b: bool :: i < |cols| ==> Owned(owner, cols, key, i, b))
  }

  /** What the places hold after one connection has changed. */
  lemma KeyAfter<K>(cols: seq<Collector>, key: Connection -> Option<K>, i: nat, b: bool, con: Connection,
                    j: nat, d: bool)
    requires i < |cols| && j < |cols|
    ensures KeyAt(cols[i := WithConnection(cols[i], b, con)], key, j, d) ==
            if i == j && b == d then key(con) else KeyAt(cols, key, j, d)
  {
    if j == i {
      assert ConnectionAt(WithConnection(cols[i], b, con), d) == if b == d then con else ConnectionAt(cols[j], d);
    }
  }

  /** A place that held nothing takes a new resource. */
  lemma TracksAdd<K(!new)>(owner: map<K, Place>, cols: seq<Collector>, key: Connection -> Option<K>,
                           i: nat, b: bool, con: Connection, k: K)
    requires Tracks(owner, cols, key) && i < |cols| && k !in owner
    requires KeyAt(cols, key, i, b) == None && key(con) == Some(k)
    ensures Tracks(owner[k := Place(i, b)], cols[i := WithConnection(cols[i], b, con)], key)
  {
    var owner', cols' := owner[k := Place(i, b)], cols[i := WithConnection(cols[i], b, con)];
    forall j: nat, d: bool | j < |cols|
      ensures Owned(owner', cols', key, j, d)
    {
      KeyAfter(cols, key, i, b, con, j, d);
      assert Owned(owner, cols, key, j, d);
    }
    forall k' | k' in owner'
      ensures owner'[k'].i < |cols| && KeyAt(cols', key, owner'[k'].i, owner'[k'].main) == Some(k')
    {
      KeyAfter(cols, key, i, b, con, owner'[k'].i, owner'[k'].main);
    }
  }

  /** A place gives its resource up. */
  lemma TracksRemove<K(!new)>(owner: map<K, Place>, cols: seq<Collector>, key: Connection -> Option<K>,
                              i: nat, b: bool, con: Connection, k: K)
    requires Tracks(owner, cols, key) && i < |cols|
    requires KeyAt(cols, key, i, b) == Some(k) && key(con) == None
    ensures k in owner && Tracks(owner - {k}, cols[i := WithConnection(cols[i], b, con)], key)
  {
    assert Owned(owner, cols, key, i, b);
    var cols' := cols[i := WithConnection(cols[i], b, con)];
    forall j: nat, d: bool | j < |cols|
      ensures Owned(owner - {k}, cols', key, j, d)
    {
      KeyAfter(cols, key, i, b, con, j, d);
      assert Owned(owner, cols, key, j, d);
    }
    forall k' | k' in owner - {k}
      ensures owner[k'].i < |cols| && KeyAt(cols', key, owner[k'].i, owner[k'].main) == Some(k')
    {
      KeyAfter(cols, key, i, b, con, owner[k'].i, owner[k'].main);
    }
  }

  /** A change that concerns other things than the resource. */
  lemma TracksSame<K(!new)>(owner: map<K, Place>, cols: seq<Collector>, key: Connection -> Option<K>,
                            i: nat, c: Collector)
    requires Tracks(owner, cols, key) && i < |cols|
    requires key(c.main) == key(cols[i].main) && key(c.replacement) == key(cols[i].replacement)
    ensures Tracks(owner, cols[i := c], key)
  {
    var cols' := cols[i := c];
    forall j: nat, d: bool | j < |cols|
      ensures KeyAt(cols', key, j, d) == KeyAt(cols, key, j, d)
      ensures Owned(owner, cols', key, j, d)
    {
      assert Owned(owner, cols, key, j, d);
    }
  }

  /** The owners after the two connections of collector i have changed places. */
  ghost function Swapped<K>(owner: map<K, Place>, i: nat): map<K, Place> {
    map k | k in owner :: if owner[k].i == i then Place(i, !owner[k].main) else owner[k]
  }

  lemma TracksSwap<K(!new)>(owner: map<K, Place>, cols: seq<Collector>, key: Connection -> Option<K>, i: nat)
    requires Tracks(owner, cols, key) && i < |cols|
    ensures Tracks(Swapped(owner, i),
                   cols[i := cols[i].(main := cols[i].replacement, replacement := cols[i].main)], key)
  {
    var cols' := cols[i := cols[i].(main := cols[i].replacement, replacement := cols[i].main)];
    forall j: nat, d: bool | j < |cols|
      ensures KeyAt(cols', key, j, d) == KeyAt(cols, key, j, if i == j then !d else d)
      ensures Owned(Swapped(owner, i), cols', key, j, d)
    {
      assert Owned(owner, cols, key, j, if i == j then !d else d);
    }
  }

  /** Every resource a collector array holds. */
  ghost function Held<K>(cols: seq<Collector>, key: Connection -> Option<K>): set<K> {
    (set i | 0 <= i < |cols| && key(cols[i].main).Some? :: key(cols[i].main).value) +
    (set i | 0 <= i < |cols| && key(cols[i].replacement).Some? :: key(cols[i].replacement).value)
  }

  /** What is tracked is what is held, and no resource is held twice. */
  lemma TrackedIsHeld<K(!new)>(owner: map<K, Place>, cols: seq<Collector>, key: Connection -> Option<K>)
    requires Tracks(owner, cols, key)
    ensures owner.Keys == Held(cols, key)
    ensures forall i: nat, b: bool, j: nat, d: bool ::
              i < |cols| && j < |cols| && Place(i, b) != Place(j, d) && KeyAt(cols, key, i, b).Some? ==>
                KeyAt(cols, key, i, b) != KeyAt(cols, key, j, d)
  {
    forall i: nat, b: bool, j: nat, d: bool | i < |cols| && j < |cols| && KeyAt(cols, key, i, b).Some?
        && KeyAt(cols, key, i, b) == KeyAt(cols, key, j, d)
      ensures Place(i, b) == Place(j, d)
    {
      assert Owned(owner, cols, key, i, b) && Owned(owner, cols, key, j, d);
    }
    forall k | k in owner
      ensures k in Held(cols, key)
    {
      assert KeyAt(cols, key, owner[k].i, owner[k].main) == Some(k);
    }
    forall k | k in Held(cols, key)
      ensures k in owner
    {
      if i :| 0 <= i < |cols| && key(cols[i].main) == Some(k) {
        assert Owned(owner, cols, key, i, true);
      } else {
        var i :| 0 <= i < |cols| && key(cols[i].replacement) == Some(k);
        assert Owned(owner, cols, key, i, false);
      }
    }
  }
}
