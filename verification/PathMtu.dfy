/**
 * How long a message may be: the path MTU of each collector reached over UDP, and the limit
 * that update_exporter_max_message_size derives for all of them.
 */
module PathMtu {
  import opened Options
  import opened Wire
  import opened DataSets
  import opened MessageSize
  import opened Resources

  const CONSERVATIVE_DEFAULT := 1400
  const IP_AND_UDP_HEADERS := 20 + 8
  const DTLS_OVERHEAD := 77
  const MAX_RECORD_LENGTH := 16384

  predicate OverUdp(c: Collector) { c.protocol == Udp || c.protocol == DtlsOverUdp }

  predicate DiscoversMtu(c: Collector) { OverUdp(c) && c.mtuDiscover }

  // ----- Discovery

  /** What the socket, the SSL object and its BIO say about the MTU. */
  datatype Answers = Answers(socket: int, ssl: int, bio: int)

  /** The largest datagram for an SSL object: the smaller of the two positive answers. */
  function DatagramSize(a: Answers): int {
    var size := if a.ssl > 0 then a.ssl + DTLS_OVERHEAD else -1;
    if a.bio > 0 && (size == -1 || a.bio < size) then a.bio else size
  }

  /** The MTU that update_collector_mtu finds, if any. */
  function Discovered(c: Collector, a: Answers): Option<U16> {
    if c.protocol == Udp then
      if a.socket < 0 then None else Some(Low16(a.socket))
    else if c.main.ssl.Some? && DatagramSize(a) > 0 then Some(Low16(DatagramSize(a) + IP_AND_UDP_HEADERS))
    else None
  }

  /** Over DTLS there is an MTU exactly when there is an SSL object, and it or its BIO knows one. */
  lemma DiscoveredOverDtls(c: Collector, a: Answers)
    requires c.protocol == DtlsOverUdp
    ensures Discovered(c, a).Some? <==> c.main.ssl.Some? && (a.ssl > 0 || a.bio > 0)
  {
  }

  // ----- The limit

  /** What the lower layers add to a message. */
  function Overhead(c: Collector): nat {
    if c.protocol == DtlsOverUdp then DTLS_OVERHEAD + IP_AND_UDP_HEADERS else IP_AND_UDP_HEADERS
  }

  /** The longest message for a collector, as it is computed in 16 bits. */
  function SizeLimit(c: Collector): U16 {
    var size := Low16(c.mtu - Overhead(c));
    if c.protocol == DtlsOverUdp && size > MAX_RECORD_LENGTH then MAX_RECORD_LENGTH else size
  }

  predicate Limited(c: Collector) { !c.state.Unused? && OverUdp(c) }

  predicate Sized(c: Collector, max: U16) { Limited(c) ==> max <= SizeLimit(c) }

  /** The limit of the exporter is one for each of its collectors. */
  predicate AllSized(cols: seq<Collector>, max: U16) {
    forall i :: 0 <= i < |cols| ==> Sized(cols[i], max)
  }

  /** m is the smallest among the old limit and the limits of the collectors. */
  ghost predicate IsLeast(m: U16, max: U16, cols: seq<Collector>) {
    m <= max && AllSized(cols, m) && (m == max || exists c :: c in cols && Limited(c) && m == SizeLimit(c))
  }

  lemma LeastStep(m: U16, max: U16, cols: seq<Collector>, c: Collector, m': U16)
    requires IsLeast(m, max, cols)
    requires m' == if Limited(c) && SizeLimit(c) < m then SizeLimit(c) else m
    ensures IsLeast(m', max, cols + [c])
  {
    assert c in cols + [c];
    if m' == m != max {
      var d :| d in cols && Limited(d) && m == SizeLimit(d);
      assert d in cols + [c];
    }
  }

  lemma SizedUpdate(cols: seq<Collector>, max: U16, i: nat, c: Collector)
    requires AllSized(cols, max) && i < |cols| && Sized(c, max)
    ensures AllSized(cols[i := c], max)
  {
  }

  /** A message of the greatest length fits the path exactly when the MTU has room for the lower layers. */
  lemma GreatestMessageFits(c: Collector, max: U16)
    requires Limited(c) && Sized(c, max)
    ensures Overhead(c) + max <= c.mtu <==> Overhead(c) <= c.mtu
  {
  }

  /** Whatever a user builds who asks for the remaining space fits the path of every such collector. */
  lemma BuiltMessageFits(c: Collector, max: U16, ops: seq<Op>)
    requires Limited(c) && Sized(c, max) && Overhead(c) <= c.mtu && PoliteRun(EMPTY, max, ops)
    ensures Run(EMPTY, ops) == EMPTY || Overhead(c) + Used(Run(EMPTY, ops)) <= c.mtu
  {
    StaysWithin(max, ops);
    GreatestMessageFits(c, max);
  }

  /** The limit of the exporter suits the path of a collector, as far as its MTU has room for the lower layers at all. */
  predicate SuitsPath(c: Collector, max: U16) {
    Limited(c) ==> (Overhead(c) + max <= c.mtu <==> Overhead(c) <= c.mtu)
  }

  lemma SizedSuitsPaths(cols: seq<Collector>, max: U16)
    requires AllSized(cols, max)
    ensures forall i :: 0 <= i < |cols| ==> SuitsPath(cols[i], max)
  {
    forall i | 0 <= i < |cols|
      ensures SuitsPath(cols[i], max)
    {
      assert Sized(cols[i], max);
      if Limited(cols[i]) {
        GreatestMessageFits(cols[i], max);
      }
    }
  }

  /** What one more collector makes of the limit. */
  function Lowered(max: U16, c: Collector): U16 {
    if OverUdp(c) && SizeLimit(c) < max then SizeLimit(c) else max
  }

  /** Where the limit suits all other collectors, only collector i lowers it. */
  lemma LeastOfOne(m: U16, max: U16, cols: seq<Collector>, i: nat)
    requires IsLeast(m, max, cols) && i < |cols| && Limited(cols[i])
    requires forall j :: 0 <= j < |cols| && j != i ==> Sized(cols[j], max)
    ensures m == Lowered(max, cols[i])
  {
    assert Sized(cols[i], m);
    if m != max {
      var c :| c in cols && Limited(c) && m == SizeLimit(c);
      var j :| 0 <= j < |cols| && cols[j] == c;
      assert j != i ==> Sized(cols[j], max);
    }
  }
}
