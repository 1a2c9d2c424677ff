/**
 * The DTLS connection manager (ipfixlolib_dtls.c, with the collector handling of
 * ipfixlolib.c).  OpenSSL, the sockets and the clock answer at will.  close() and
 * SSL_free() are only ever called on what is open, and every open socket and every SSL
 * object is held by exactly one connection.
 */
module Dtls {
  import opened Options
  import opened Wire
  import opened Resources
  import opened PathMtu

  // ----- Well-formed collectors

  /** The SSL object is absent exactly when the socket is -1. */
  predicate Paired(con: Connection) {
    && (con.ssl.None? <==> con.socket == -1)
    && (con.established || con.informed ==> con.ssl.Some?)
  }

  predicate Live(con: Connection) { con.ssl.Some? && con.socket != -1 }

  /** The handshake is not over, so nothing has been sent. */
  predicate Untouched(con: Connection) { !con.established && !con.informed }

  predicate IsDtls(c: Collector) { c.protocol == DtlsOverUdp || c.protocol == DtlsOverSctp }

  predicate WellFormed(c: Collector) {
    && Paired(c.main) && Paired(c.replacement) && Untouched(c.replacement)
    && (!IsDtls(c) || c.state.Unused? ==> c.main == c.replacement == NOTHING)
    && (IsDtls(c) && c.state.Connected? ==> Live(c.main) && c.main.established)
    && (IsDtls(c) && c.state.New? ==> Live(c.main) && Untouched(c.main))
    && (IsDtls(c) && c.state.Disconnected? ==> c.main == NOTHING)
  }

  /** A connected collector has been offered the templates, over the very connection that is in use. */
  predicate Settled(c: Collector) {
    WellFormed(c) && (IsDtls(c) && c.state.Connected? ==> c.main.informed)
  }

  predicate AllSettled(cols: seq<Collector>) {
    forall i :: 0 <= i < |cols| ==> Settled(cols[i])
  }

  /** The templates have been offered over the main connection. */
  function Informed(c: Collector): Collector { c.(main := c.main.(informed := true)) }

  /** A collector that has been removed. */
  function Removed(c: Collector): Collector {
    c.(state := Unused, main := NOTHING, replacement := NOTHING)
  }

  /** A collector whose main connection has been shut down. */
  function Failed(c: Collector): Collector { c.(state := Disconnected, main := NOTHING) }

  /** A collector whose MTU has been asked for: another MTU, or none and no collector. */
  predicate MtuOutcome(c: Collector, c': Collector) {
    c' == c || (DiscoversMtu(c) && (c' == Removed(c) || c' == c.(mtu := c'.mtu)))
  }

  /** The outcomes of dtls_send: r is its return value. */
  predicate SendOutcome(c: Collector, c': Collector, r: int) {
    && r >= -1
    && (c' == c || (c.state.Connected? && r == -1 && (c' == Failed(c) || MtuOutcome(c, c'))))
    && (!c.state.Connected? ==> r == -1)
  }

  /** The outcomes of dtls_send_templates. */
  predicate TemplatesOutcome(c: Collector, c': Collector, r: int) {
    (r == 0 && c' == Informed(c)) || SendOutcome(Informed(c), c', r)
  }

  /** What the clock says: the connection is older than its lifetime; the wait before a new attempt is over. */
  datatype Clock = Clock(lifetimeOver: bool, waited: bool)

  /** What SSL_connect and the verification of the peer come to. */
  datatype Handshake = Completed | WantsRead | Refused

  predicate DueForRenewal(c: Collector, clock: Clock) { clock.lifetimeOver && c.protocol != DtlsOverSctp }

  /** The MTU is part of the settings unless it is to be discovered. */
  predicate SameSettings(c: Collector, c': Collector) {
    c'.protocol == c.protocol && c'.mtuDiscover == c.mtuDiscover && (c'.mtu == c.mtu || DiscoversMtu(c))
  }

  /** What a call of dtls_manage_connection can lead to; rc is its return value. */
  predicate Manages(c: Collector, c': Collector, rc: int, clock: Clock, h: Handshake) {
    && SameSettings(c, c') && -1 <= rc <= 1
    && (rc == 0 && !c'.state.Connected? ==> c'.state.Unused?)
    && (c'.state.New? ==> rc == 1)
    && (c'.state.Unused? && !c.state.Unused? ==> DiscoversMtu(c))
    && match c.state
       case Unused => c' == c
       case Connected =>
         && (!DueForRenewal(c, clock) ==> c' == c && rc == 0)
         && (rc == 1 && c'.state.Connected? ==> c'.main == c.main)
         && (Live(c.replacement) && DueForRenewal(c, clock) && h.Completed? ==>
               c'.replacement == NOTHING && (c'.state.Connected? ==> c'.main.ssl == c.replacement.ssl && rc == 0))
       case New =>
         && (rc == 1 <==> h.WantsRead?) && (h.WantsRead? ==> c' == c) && (h.Refused? ==> c' == Failed(c) && rc == -1)
         && (h.Completed? ==> !c'.state.New?)
       case Disconnected => if clock.waited && rc == 1 then c'.state.New? else c' == c && (clock.waited || rc == 1)
  }

  /** What ipfix_dtls_advance_connections does to one collector; r is its return value. */
  ghost predicate Advances(c: Collector, c': Collector, r: int) {
    if c.state.Unused? || !IsDtls(c) then c' == c
    else exists rc, clock, h :: Manages(c, c', rc, clock, h) && (rc != 0 ==> r == 1)
  }

  /** There is always a number that is not in use. */
  lemma FreshNumber(s: set<int>) returns (n: nat)
    ensures n !in s && forall x :: x in s ==> x < n
  {
    if x :| x in s {
      var m := FreshNumber(s - {x});
      n := if x < m then m else x + 1;
      forall y | y in s
        ensures y < n
      {
        assert y == x || y in s - {x};
      }
    } else {
      n := 0;
    }
  }

  /** Only collector i is new, and in use. */
  lemma OnlyOneLowers(before: seq<Collector>, cols: seq<Collector>, i: nat, max: U16, m: U16)
    requires i < |before| == |cols| && cols == before[i := cols[i]] && !cols[i].state.Unused?
    requires AllSized(before, max) && IsLeast(m, max, cols)
    ensures m == Lowered(max, cols[i])
  {
    forall j | 0 <= j < |cols| && j != i
      ensures Sized(cols[j], max)
    {
      assert cols[j] == before[j];
    }
    if OverUdp(cols[i]) {
      LeastOfOne(m, max, cols, i);
    } else {
      assert forall c :: c in cols && Limited(c) ==> max <= SizeLimit(c);
    }
  }

  class Exporter {
    const collectors: array<Collector>
    var openSockets: set<int>
    var liveSsl: set<nat>
    var maxMessageSize: U16
    ghost var socketOwner: map<int, Place>
    ghost var sslOwner: map<nat, Place>

    /** init_collector_array: n free slots that hold nothing. */
    constructor (n: nat)
      ensures Valid() && fresh(collectors) && collectors.Length == n && openSockets == {} && liveSsl == {}
      ensures maxMessageSize == CONSERVATIVE_DEFAULT && forall i :: 0 <= i < n ==> collectors[i].state.Unused?
    {
      collectors := new Collector[n](_ => Collector(Unused, OtherProtocol, false, 0, NOTHING, NOTHING));
      maxMessageSize := CONSERVATIVE_DEFAULT;
      openSockets, liveSsl, socketOwner, sslOwner := {}, {}, map[], map[];
    }

    ghost predicate Tracked()
      reads this, collectors
    {
      && socketOwner.Keys == openSockets && -1 !in openSockets && sslOwner.Keys == liveSsl
      && Tracks(socketOwner, collectors[..], SocketOf)
      && Tracks(sslOwner, collectors[..], SslOf)
    }

    ghost predicate Valid()
      reads this, collectors
    {
      Tracked() && AllSettled(collectors[..]) && AllSized(collectors[..], maxMessageSize)
    }

    /** Nothing leaked: what is open is what the connections hold. */
    lemma NothingLeaks()
      requires Tracked()
      ensures openSockets == Held(collectors[..], SocketOf) && liveSsl == Held(collectors[..], SslOf)
    {
      TrackedIsHeld(socketOwner, collectors[..], SocketOf);
      TrackedIsHeld(sslOwner, collectors[..], SslOf);
    }

    /** Only collector i may have changed, and what is open. */
    twostate predicate OthersSame(i: nat)
      requires i < collectors.Length
      reads this, collectors
    {
      collectors[..] == old(collectors[..])[i := collectors[i]] && maxMessageSize == old(maxMessageSize)
    }

    /** The limit has not grown, and still suits every collector. */
    twostate predicate Lowers(i: nat)
      requires i < collectors.Length
      reads this, collectors
    {
      && collectors[..] == old(collectors[..])[i := collectors[i]] && maxMessageSize <= old(maxMessageSize)
      && (old(AllSized(collectors[..], maxMessageSize)) ==> AllSized(collectors[..], maxMessageSize))
    }

    /** The same, and only the search for an MTU has lowered it. */
    twostate predicate LowersByMtu(i: nat)
      requires i < collectors.Length
      reads this, collectors
    {
      Lowers(i) && (DiscoversMtu(old(collectors[i])) || maxMessageSize == old(maxMessageSize))
    }

    // ----- Opening and closing

    /** con->socket = create_dtls_socket(): socket() may fail, and so may the settings after it. */
    method OpenSocket(i: nat, b: bool) returns (ok: bool)
      requires Tracked() && i < collectors.Length && ConnectionAt(collectors[i], b).socket == -1
      modifies this, collectors
      ensures Tracked() && OthersSame(i)
      ensures
        var con := old(ConnectionAt(collectors[i], b));
        var socket := ConnectionAt(collectors[i], b).socket;
        && collectors[i] == WithConnection(old(collectors[i]), b, con.(socket := socket))
        && (ok <==> socket != -1) && (socket != -1 ==> socket !in old(openSockets))
    {
      ghost var n := FreshNumber(openSockets);
      var socketFails: bool, settingsFail: bool := *, *;
      if socketFails {
        return false;
      }
      var s: int :| s >= 0 && s !in openSockets;
      openSockets := openSockets + {s};
      if settingsFail {
        openSockets := openSockets - {s};
        return false;
      }
      var con := ConnectionAt(collectors[i], b).(socket := s);
      TracksAdd(socketOwner, collectors[..], SocketOf, i, b, con, s);
      TracksSame(sslOwner, collectors[..], SslOf, i, WithConnection(collectors[i], b, con));
      socketOwner := socketOwner[s := Place(i, b)];
      ghost var before := collectors[..];
      collectors[i] := WithConnection(collectors[i], b, con);
      assert collectors[..] == before[i := collectors[i]];
      ok := true;
    }

    /** close(con->socket); con->socket = -1. */
    method CloseSocket(i: nat, b: bool)
      requires Tracked() && i < collectors.Length && ConnectionAt(collectors[i], b).socket != -1
      modifies this, collectors
      ensures Tracked() && OthersSame(i)
      ensures collectors[i] == WithConnection(old(collectors[i]), b, old(ConnectionAt(collectors[i], b)).(socket := -1))
    {
      var s := ConnectionAt(collectors[i], b).socket;
      var con := ConnectionAt(collectors[i], b).(socket := -1);
      TracksRemove(socketOwner, collectors[..], SocketOf, i, b, con, s);
      TracksSame(sslOwner, collectors[..], SslOf, i, WithConnection(collectors[i], b, con));
      assert s in openSockets;  // never closed twice
      openSockets := openSockets - {s};
      socketOwner := socketOwner - {s};
      ghost var before := collectors[..];
      collectors[i] := WithConnection(collectors[i], b, con);
      assert collectors[..] == before[i := collectors[i]];
    }

    /** con->ssl = SSL_new(...), which may fail. */
    method NewSsl(i: nat, b: bool) returns (ok: bool)
      requires Tracked() && i < collectors.Length && ConnectionAt(collectors[i], b).ssl.None?
      modifies this, collectors
      ensures Tracked() && OthersSame(i)
      ensures
        var con := old(ConnectionAt(collectors[i], b));
        var ssl := ConnectionAt(collectors[i], b).ssl;
        && collectors[i] == WithConnection(old(collectors[i]), b, con.(ssl := ssl))
        && (ok <==> ssl.Some?) && (ssl.Some? ==> ssl.value !in old(liveSsl))
    {
      ghost var n := FreshNumber(set x: nat | x in liveSsl :: x as int);
      var fails: bool := *;
      if fails {
        return false;
      }
      assert n !in liveSsl;
      var ssl: nat :| ssl !in liveSsl;
      liveSsl := liveSsl + {ssl};
      var con := ConnectionAt(collectors[i], b).(ssl := Some(ssl));
      TracksAdd(sslOwner, collectors[..], SslOf, i, b, con, ssl);
      TracksSame(socketOwner, collectors[..], SocketOf, i, WithConnection(collectors[i], b, con));
      sslOwner := sslOwner[ssl := Place(i, b)];
      ghost var before := collectors[..];
      collectors[i] := WithConnection(collectors[i], b, con);
      assert collectors[..] == before[i := collectors[i]];
      ok := true;
    }

    /** SSL_free(con->ssl); con->ssl = NULL. */
    method FreeSsl(i: nat, b: bool)
      requires Tracked() && i < collectors.Length && ConnectionAt(collectors[i], b).ssl.Some?
      modifies this, collectors
      ensures Tracked() && OthersSame(i)
      ensures
        var con := old(ConnectionAt(collectors[i], b));
        collectors[i] == WithConnection(old(collectors[i]), b, con.(ssl := None, established := false, informed := false))
    {
      var ssl := ConnectionAt(collectors[i], b).ssl.value;
      var con := ConnectionAt(collectors[i], b).(ssl := None, established := false, informed := false);
      TracksRemove(sslOwner, collectors[..], SslOf, i, b, con, ssl);
      TracksSame(socketOwner, collectors[..], SocketOf, i, WithConnection(collectors[i], b, con));
      assert ssl in liveSsl;  // never freed twice
      liveSsl := liveSsl - {ssl};
      sslOwner := sslOwner - {ssl};
      ghost var before := collectors[..];
      collectors[i] := WithConnection(collectors[i], b, con);
      assert collectors[..] == before[i := collectors[i]];
    }

    // ----- Single connections

    /** setup_dtls_connection: every failure on the way gives back what was opened before it. */
    method Setup(i: nat, b: bool) returns (ok: bool)
      requires Tracked() && i < collectors.Length && ConnectionAt(collectors[i], b) == NOTHING
      modifies this, collectors
      ensures Tracked() && OthersSame(i)
      ensures collectors[i] == WithConnection(old(collectors[i]), b, ConnectionAt(collectors[i], b))
      ensures
        var con := ConnectionAt(collectors[i], b);
        if ok then Live(con) && Untouched(con) else con == NOTHING
    {
      var created := OpenSocket(i, b);
      if !created {
        return false;
      }
      var contextFails: bool := *;
      if contextFails {
        CloseSocket(i, b);
        return false;
      }
      created := NewSsl(i, b);
      if !created {
        CloseSocket(i, b);
        return false;
      }
      // certificate prerequisites, the BIO and connect()
      var prerequisitesMissing: bool, bioFails: bool, connectFails: bool := *, *, *;
      if prerequisitesMissing || bioFails || connectFails {
        FreeSsl(i, b);
        CloseSocket(i, b);
        return false;
      }
      ok := true;
    }

    /** dtls_shutdown_and_cleanup. */
    method ShutdownAndCleanup(i: nat, b: bool)
      requires Tracked() && i < collectors.Length && Paired(ConnectionAt(collectors[i], b))
      modifies this, collectors
      ensures Tracked() && OthersSame(i)
      ensures collectors[i] == WithConnection(old(collectors[i]), b, NOTHING)
    {
      if ConnectionAt(collectors[i], b).ssl.None? {
        return;
      }
      FreeSsl(i, b);
      if ConnectionAt(collectors[i], b).socket != -1 {
        CloseSocket(i, b);
      }
    }

    /** A change to a collector that leaves what it holds alone. */
    method Put(i: nat, c: Collector)
      requires Tracked() && i < collectors.Length
      requires SocketOf(c.main) == SocketOf(collectors[i].main) && SslOf(c.main) == SslOf(collectors[i].main)
      requires SocketOf(c.replacement) == SocketOf(collectors[i].replacement)
      requires SslOf(c.replacement) == SslOf(collectors[i].replacement)
      modifies collectors
      ensures Tracked() && OthersSame(i) && collectors[i] == c
    {
      TracksSame(sslOwner, collectors[..], SslOf, i, c);
      TracksSame(socketOwner, collectors[..], SocketOf, i, c);
      ghost var before := collectors[..];
      collectors[i] := c;
      assert collectors[..] == before[i := c];
    }

    method SetState(i: nat, state: CollectorState)
      requires Tracked() && i < collectors.Length
      modifies collectors
      ensures Tracked() && OthersSame(i) && collectors[i] == old(collectors[i]).(state := state)
    {
      Put(i, collectors[i].(state := state));
    }

    /** dtls_connect: SSL_connect, then the verification of the peer. */
    method Connect(i: nat, b: bool, h: Handshake) returns (r: int)
      requires Tracked() && i < collectors.Length && Live(ConnectionAt(collectors[i], b))
      modifies this, collectors
      ensures Tracked() && OthersSame(i) && r == (match h case Completed => 1 case WantsRead => 0 case Refused => -1)
      ensures
        var con := old(ConnectionAt(collectors[i], b));
        collectors[i] == if r == 0 then old(collectors[i])
                         else WithConnection(old(collectors[i]), b, if r == 1 then con.(established := true) else NOTHING)
    {
      match h {
        case Completed =>
          var con := ConnectionAt(collectors[i], b).(established := true);
          Put(i, WithConnection(collectors[i], b, con));
          return 1;
        case WantsRead =>
          return 0;
        case Refused =>
          ShutdownAndCleanup(i, b);
          return -1;
      }
    }

    /** dtls_get_replacement_connection_ready. */
    method ReplacementReady(i: nat, h: Handshake) returns (r: int)
      requires Tracked() && i < collectors.Length
      requires Paired(collectors[i].replacement) && Untouched(collectors[i].replacement)
      modifies this, collectors
      ensures Tracked() && OthersSame(i) && -1 <= r <= 1
      ensures
        var con := collectors[i].replacement;
        && collectors[i] == old(collectors[i]).(replacement := con)
        && if r == -1 then con == NOTHING else Live(con) && (con.established <==> r == 1) && !con.informed
      ensures r == 1 ==> h.Completed?
      ensures Live(old(collectors[i]).replacement) && h.Completed? ==>
                r == 1 && collectors[i].replacement.ssl == old(collectors[i]).replacement.ssl
    {
      if collectors[i].replacement.ssl.None? {
        var ok := Setup(i, false);
        if !ok {
          return -1;
        }
      }
      r := Connect(i, false, h);
      if r == 1 {
        return 1;
      }
      if r == 0 {
        var tooLong: bool := *;
        if tooLong {
          ShutdownAndCleanup(i, false);
        } else {
          return 0;
        }
      }
      return -1;
    }

    /** dtls_swap_connections. */
    method Swap(i: nat)
      requires Tracked() && i < collectors.Length
      modifies this, collectors
      ensures Tracked() && OthersSame(i)
      ensures
        var c := old(collectors[i]);
        collectors[i] == c.(main := c.replacement, replacement := c.main)
    {
      var c := collectors[i];
      TracksSwap(socketOwner, collectors[..], SocketOf, i);
      TracksSwap(sslOwner, collectors[..], SslOf, i);
      socketOwner, sslOwner := Swapped(socketOwner, i), Swapped(sslOwner, i);
      ghost var before := collectors[..];
      collectors[i] := c.(main := c.replacement, replacement := c.main);
      assert collectors[..] == before[i := collectors[i]];
    }

    // ----- Collectors

    /** remove_collector. */
    method RemoveCollector(i: nat)
      requires Tracked() && i < collectors.Length && WellFormed(collectors[i])
      modifies this, collectors
      ensures Tracked() && OthersSame(i) && collectors[i] == Removed(old(collectors[i]))
    {
      if IsDtls(collectors[i]) {
        ShutdownAndCleanup(i, true);
        ShutdownAndCleanup(i, false);
      }
      SetState(i, Unused);
    }

    /** update_exporter_max_message_size: the limit becomes the least of all. */
    method UpdateMaxMessageSize()
      modifies this`maxMessageSize
      ensures IsLeast(maxMessageSize, old(maxMessageSize), collectors[..])
    {
      assert collectors[..0] == [];
      for i := 0 to collectors.Length
        invariant IsLeast(maxMessageSize, old(maxMessageSize), collectors[..i])
      {
        assert collectors[..i + 1] == collectors[..i] + [collectors[i]];
        ghost var before := maxMessageSize;
        var c := collectors[i];
        if !c.state.Unused? && (c.protocol == Udp || c.protocol == DtlsOverUdp) {
          var size: U16 := 0;
          if c.protocol == Udp {
            size := Low16(c.mtu - (20 + 8));
          } else {
            size := Low16(c.mtu - DTLS_OVERHEAD - (20 + 8));
            if size > MAX_RECORD_LENGTH {
              size := MAX_RECORD_LENGTH;
            }
          }
          if maxMessageSize > size {
            maxMessageSize := size;
          }
        }
        LeastStep(before, old(maxMessageSize), collectors[..i], c, maxMessageSize);
      }
      assert collectors[..collectors.Length] == collectors[..];
    }

    /** update_collector_mtu: no MTU, no collector. */
    method UpdateMtu(i: nat, a: Answers) returns (failed: bool)
      requires Tracked() && i < collectors.Length && WellFormed(collectors[i])
      modifies this, collectors
      ensures Tracked() && LowersByMtu(i) && MtuOutcome(old(collectors[i]), collectors[i])
      ensures
        var c := old(collectors[i]);
        if !DiscoversMtu(c) then !failed && collectors[i] == c && OthersSame(i)
        else match Discovered(c, a)
          case None => failed && collectors[i] == Removed(c) && OthersSame(i)
          case Some(mtu) => !failed && collectors[i] == c.(mtu := mtu) && AllSized(collectors[..], maxMessageSize)
    {
      var c := collectors[i];
      if c.protocol == Udp && c.mtuDiscover {
        if a.socket < 0 {
          Drop(i);
          return true;
        }
        TakeMtu(i, Low16(a.socket));
      } else if c.protocol == DtlsOverUdp && c.mtuDiscover {
        var mtu := -1;
        if c.main.ssl.Some? {
          if a.ssl > 0 {
            mtu := a.ssl + DTLS_OVERHEAD;
          }
          if a.bio > 0 && (mtu == -1 || a.bio < mtu) {
            mtu := a.bio;
          }
        }
        if mtu <= 0 {
          Drop(i);
          return true;
        }
        TakeMtu(i, Low16(mtu + 20 + 8));
      }
      failed := false;
    }

    /** A collector goes, and with it its own limit. */
    method Drop(i: nat)
      requires Tracked() && i < collectors.Length && WellFormed(collectors[i])
      modifies this, collectors
      ensures Tracked() && OthersSame(i) && Lowers(i) && collectors[i] == Removed(old(collectors[i]))
    {
      RemoveCollector(i);
      if old(AllSized(collectors[..], maxMessageSize)) {
        SizedUpdate(old(collectors[..]), maxMessageSize, i, collectors[i]);
      }
    }

    method TakeMtu(i: nat, mtu: U16)
      requires Tracked() && i < collectors.Length
      modifies this`maxMessageSize, collectors
      ensures Tracked() && Lowers(i) && collectors[i] == old(collectors[i]).(mtu := mtu)
      ensures AllSized(collectors[..], maxMessageSize)
    {
      Put(i, collectors[i].(mtu := mtu));
      UpdateMaxMessageSize();
    }

    /** dtls_send_helper: only ever writes to an SSL object whose handshake is over. */
    method SendHelper(i: nat) returns (r: int)
      requires Tracked() && i < collectors.Length
      requires Live(collectors[i].main) && collectors[i].main.established && collectors[i].main.informed
      modifies this, collectors
      ensures Tracked() && OthersSame(i) && r >= -3
      ensures collectors[i] == if r == -2 then old(collectors[i]).(main := NOTHING) else old(collectors[i])
    {
      var bytes: nat, tooSmall: bool, wantsRead: bool, tooLong: bool, fails: bool, short: bool := *, *, *, *, *, *;
      if tooSmall {
        return -1;
      }
      if wantsRead {
        return 0;
      } else if tooLong {
        return -3;
      } else if fails {
        ShutdownAndCleanup(i, true);
        return -2;
      }
      r := if short then -1 else bytes;
    }

    /** dtls_send. */
    method Send(i: nat) returns (r: int)
      requires Tracked() && i < collectors.Length && Settled(collectors[i]) && IsDtls(collectors[i])
      modifies this, collectors
      ensures Tracked() && LowersByMtu(i) && Settled(collectors[i])
      ensures SendOutcome(old(collectors[i]), collectors[i], r)
    {
      if !collectors[i].state.Connected? {
        return -1;
      }
      r := SendHelper(i);
      if r == -2 {
        SetState(i, Disconnected);
        r := -1;
      } else if r == -3 {
        var a: Answers := *;
        var failed := UpdateMtu(i, a);
        r := -1;
      }
    }

    /** dtls_send_templates: nothing is sent while no template is committed. */
    method SendTemplates(i: nat) returns (r: int)
      requires Tracked() && i < collectors.Length && WellFormed(collectors[i]) && IsDtls(collectors[i])
      requires collectors[i].state.Connected?
      modifies this, collectors
      ensures Tracked() && LowersByMtu(i) && Settled(collectors[i])
      ensures TemplatesOutcome(old(collectors[i]), collectors[i], r)
    {
      Put(i, Informed(collectors[i]));
      var nothingCommitted: bool := *;
      if nothingCommitted {
        return 0;
      }
      r := Send(i);
    }

    // ----- dtls_manage_connection

    /** No SSL object is shared by the two connections of a collector. */
    lemma TwoObjects(i: nat)
      requires Tracked() && i < collectors.Length && collectors[i].main.ssl.Some?
      ensures collectors[i].replacement.ssl != collectors[i].main.ssl
    {
      assert Owned(sslOwner, collectors[..], SslOf, i, true) && Owned(sslOwner, collectors[..], SslOf, i, false);
      assert KeyAt(collectors[..], SslOf, i, true) == collectors[i].main.ssl;
      assert KeyAt(collectors[..], SslOf, i, false) == collectors[i].replacement.ssl;
    }

    /** The replacement takes over: the old connection is gone and the templates go out again. */
    method TakeOver(i: nat)
      requires Tracked() && i < collectors.Length && Paired(collectors[i].main) && IsDtls(collectors[i])
      requires collectors[i].state.Connected?
      requires Live(collectors[i].replacement) && collectors[i].replacement.established
      modifies this, collectors
      ensures Tracked() && LowersByMtu(i) && Settled(collectors[i])
      ensures
        var c := old(collectors[i]);
        exists r :: TemplatesOutcome(c.(main := c.replacement, replacement := NOTHING), collectors[i], r)
    {
      Swap(i);
      ShutdownAndCleanup(i, false);
      var r := SendTemplates(i);
    }

    /** A connected collector: an old connection is replaced by a new one. */
    method Renew(i: nat, clock: Clock, h: Handshake) returns (young: bool, rc: int)
      requires Tracked() && i < collectors.Length && Settled(collectors[i]) && IsDtls(collectors[i])
      requires collectors[i].state.Connected?
      modifies this, collectors
      ensures Tracked() && LowersByMtu(i) && Settled(collectors[i])
      ensures young <==> !DueForRenewal(old(collectors[i]), clock)
      ensures 0 <= rc <= 1 && (young ==> rc == 0 && collectors[i] == old(collectors[i]))
      ensures
        var c, c' := old(collectors[i]), collectors[i];
        && SameSettings(c, c')
        && !c'.state.New? && (c'.state.Unused? ==> DiscoversMtu(c) && rc == 0)
        && (rc == 1 ==> c'.state.Connected? && c'.main == c.main)
        && (rc == 0 && !young ==> c'.replacement == NOTHING && c'.main.ssl != c.main.ssl)
        && (!young && Live(c.replacement) && h.Completed? ==>
              rc == 0 && (c'.state.Connected? ==> c'.main.ssl == c.replacement.ssl))
    {
      if collectors[i].protocol == DtlsOverSctp || !clock.lifetimeOver {
        return true, 0;
      }
      young := false;
      var r := ReplacementReady(i, h);
      rc := 1;
      if r == 1 {
        rc := 0;
        TwoObjects(i);
        TakeOver(i);
      }
    }

    method Activate(i: nat) returns (failed: bool)
      requires Tracked() && i < collectors.Length && collectors[i].state.New?
      requires WellFormed(collectors[i].(state := Connected))
      modifies this, collectors
      ensures Tracked() && LowersByMtu(i) && (failed ==> DiscoversMtu(old(collectors[i])))
      ensures SameSettings(old(collectors[i]), collectors[i])
      ensures
        var c := old(collectors[i]);
        collectors[i] == if failed then Removed(c) else c.(state := Connected, mtu := collectors[i].mtu)
    {
      SetState(i, Connected);
      var a: Answers := *;
      failed := UpdateMtu(i, a);
    }

    /** The handshake is over: the MTU is asked for and the templates go out. */
    method Welcome(i: nat) returns (rc: int)
      requires Tracked() && i < collectors.Length && IsDtls(collectors[i]) && collectors[i].state.New?
      requires WellFormed(collectors[i].(state := Connected))
      modifies this, collectors
      ensures Tracked() && LowersByMtu(i) && Settled(collectors[i]) && -1 <= rc <= 0
      ensures
        var c, c' := old(collectors[i]), collectors[i];
        && SameSettings(c, c')
        && !c'.state.New? && (c'.state.Unused? ==> DiscoversMtu(c)) && (rc == 0 ==> c'.state.Connected?)
    {
      var failed := Activate(i);
      if failed {
        return -1;
      }
      var r := SendTemplates(i);
      rc := if r >= 0 then 0 else -1;
    }

    /** A new collector: the handshake goes on. */
    method Advance(i: nat, h: Handshake) returns (done: bool, rc: int)
      requires Tracked() && i < collectors.Length && Settled(collectors[i]) && IsDtls(collectors[i])
      requires collectors[i].state.New?
      modifies this, collectors
      ensures Tracked() && LowersByMtu(i) && Settled(collectors[i])
      ensures -1 <= rc <= 1 && (!done <==> rc == 1) && (!done ==> collectors[i] == old(collectors[i]))
      ensures
        var c, c' := old(collectors[i]), collectors[i];
        && SameSettings(c, c')
        && (rc == 1 <==> h.WantsRead?) && (h.Refused? ==> c' == Failed(c) && rc == -1)
        && (done ==> !c'.state.New?) && (c'.state.Unused? ==> DiscoversMtu(c)) && (rc == 0 ==> c'.state.Connected?)
    {
      var r := Connect(i, true, h);
      if r == 1 {
        rc := Welcome(i);
        return true, rc;
      } else if r == -1 {
        SetState(i, Disconnected);
        return true, -1;
      }
      return false, 1;
    }

    /** A disconnected collector: another attempt, once the wait is over. */
    method Retry(i: nat, clock: Clock) returns (rc: int)
      requires Tracked() && i < collectors.Length && Settled(collectors[i]) && IsDtls(collectors[i])
      requires collectors[i].state.Disconnected?
      modifies this, collectors
      ensures Tracked() && LowersByMtu(i) && Settled(collectors[i]) && (rc == 1 || (rc == -1 && clock.waited))
      ensures
        var c, c' := old(collectors[i]), collectors[i];
        if clock.waited && rc == 1 then c' == c.(state := New, main := c'.main) else c' == c
    {
      if !clock.waited {
        return 1;
      }
      rc := 1;
      var ok := Setup(i, true);
      if !ok {
        return -1;
      }
      SetState(i, New);
    }

    /** dtls_manage_connection. */
    method Manage(i: nat, clock: Clock, h: Handshake) returns (rc: int)
      requires Tracked() && i < collectors.Length && Settled(collectors[i]) && IsDtls(collectors[i])
      modifies this, collectors
      ensures Tracked() && LowersByMtu(i) && Settled(collectors[i])
      ensures Manages(old(collectors[i]), collectors[i], rc, clock, h)
    {
      rc := 0;
      var done := false;
      if collectors[i].state.Connected? {
        done, rc := Renew(i, clock, h);
        if done {
          return;
        }
      }
      if collectors[i].state.New? {
        done, rc := Advance(i, h);
        if done {
          return;
        }
      }
      if collectors[i].state.Disconnected? {
        rc := Retry(i, clock);
      }
    }

    /** A free slot is taken, unless the MTU cannot be discovered. */
    method Take(i: nat, state: CollectorState) returns (failed: bool)
      requires Tracked() && i < collectors.Length && collectors[i].state.Unused? && !state.Unused?
      requires WellFormed(collectors[i].(state := state))
      modifies this, collectors
      ensures Tracked() && Lowers(i) && (failed ==> DiscoversMtu(old(collectors[i])))
      ensures SameSettings(old(collectors[i]), collectors[i])
      ensures
        var c := old(collectors[i]);
        collectors[i] == if failed then Removed(c) else c.(state := state, mtu := collectors[i].mtu)
      ensures old(AllSized(collectors[..], maxMessageSize)) && !DiscoversMtu(old(collectors[i])) ==>
                maxMessageSize == Lowered(old(maxMessageSize), collectors[i])
    {
      SetState(i, state);
      var a: Answers := *;
      failed := UpdateMtu(i, a);
      if failed {
        if old(AllSized(collectors[..], maxMessageSize)) {
          SizedUpdate(old(collectors[..]), maxMessageSize, i, collectors[i]);
        }
      } else {
        ghost var max := maxMessageSize;
        UpdateMaxMessageSize();
        if old(AllSized(collectors[..], maxMessageSize)) && !DiscoversMtu(old(collectors[i])) {
          OnlyOneLowers(old(collectors[..]), collectors[..], i, max, maxMessageSize);
        }
      }
    }

    /** The end of add_collector_dtls: the slot is taken once the connection is set up. */
    method Occupy(i: nat) returns (ok: bool)
      requires Tracked() && i < collectors.Length && Settled(collectors[i]) && IsDtls(collectors[i])
      requires collectors[i].state.Unused?
      modifies this, collectors
      ensures Tracked() && Lowers(i) && Settled(collectors[i])
      ensures
        var c, c' := old(collectors[i]), collectors[i];
        && SameSettings(c, c')
        && (!ok ==> c' == c) && (ok && c'.state.Unused? ==> DiscoversMtu(c))
      ensures old(AllSized(collectors[..], maxMessageSize)) && !DiscoversMtu(old(collectors[i])) ==>
                maxMessageSize == if ok then Lowered(old(maxMessageSize), collectors[i]) else old(maxMessageSize)
    {
      ok := Setup(i, true);
      if !ok {
        return;
      }
      var failed := Take(i, New);
      if failed {
        return false;
      }
      var clock: Clock, h: Handshake := *, *;
      var rc := Manage(i, clock, h);
    }

    /** set_mtu_config: without an MTU in the configuration it is to be discovered. */
    method SetMtuConfig(i: nat, configured: U16)
      requires Tracked() && i < collectors.Length
      modifies collectors
      ensures Tracked() && OthersSame(i)
      ensures
        var mtu := if configured == 0 then 0xFFFF else configured;
        collectors[i] == old(collectors[i]).(mtuDiscover := configured == 0, mtu := mtu)
    {
      Put(i, collectors[i].(mtuDiscover := configured == 0, mtu := if configured == 0 then 0xFFFF else configured));
    }

    /** ipfix_add_collector for a DTLS transport, in a slot that is free; mtu is 0 where none is configured. */
    method AddDtls(i: nat, protocol: Protocol, mtu: U16, configured: bool) returns (ok: bool)
      requires Valid() && i < collectors.Length && collectors[i].state.Unused?
      requires protocol == DtlsOverUdp || protocol == DtlsOverSctp
      modifies this, collectors
      ensures Valid() && Lowers(i)
      ensures
        var c := collectors[i];
        && c.protocol == protocol
        && (ok ==> configured) && (!ok ==> c.state.Unused?)
        && (configured && protocol == DtlsOverUdp ==> (c.mtuDiscover <==> mtu == 0) && (mtu != 0 ==> c.mtu == mtu))
        && (ok && c.state.Unused? ==> DiscoversMtu(c))
      ensures ok && protocol == DtlsOverUdp && mtu != 0 ==> maxMessageSize == Lowered(old(maxMessageSize), collectors[i])
    {
      assert Settled(collectors[..][i]);
      Put(i, collectors[i].(protocol := protocol));
      if !configured {
        return false;
      }
      if protocol == DtlsOverUdp {
        SetMtuConfig(i, mtu);
      }
      ok := Occupy(i);
    }

    /** An MTU of 100 bytes, less than the headers, leaves a new exporter with its limit of 1400 bytes. */
    method AddTiny(i: nat) returns (ok: bool)
      requires Valid() && i < collectors.Length && collectors[i].state.Unused? && maxMessageSize == CONSERVATIVE_DEFAULT
      modifies this, collectors
      ensures ok ==> Limited(collectors[i]) && collectors[i].mtu == 100 && maxMessageSize == CONSERVATIVE_DEFAULT
      ensures ok ==> Overhead(collectors[i]) + maxMessageSize > collectors[i].mtu
    {
      ok := AddDtls(i, DtlsOverUdp, 100, true);
    }

    /** ipfix_add_collector for UDP, SCTP and files. */
    method AddOther(i: nat, protocol: Protocol, mtu: U16, connected: bool) returns (ok: bool)
      requires Valid() && i < collectors.Length && collectors[i].state.Unused?
      requires protocol == Udp || protocol == OtherProtocol
      modifies this, collectors
      ensures Valid() && Lowers(i)
      ensures
        var c := collectors[i];
        && c.protocol == protocol && (ok <==> !c.state.Unused?)
        && (protocol == Udp ==> (c.mtuDiscover <==> mtu == 0) && (mtu != 0 ==> c.mtu == mtu))
    {
      assert Settled(collectors[..][i]);
      Put(i, collectors[i].(protocol := protocol));
      if protocol == Udp {
        SetMtuConfig(i, mtu);
      }
      var socketFails: bool := *;
      if socketFails {
        return false;
      }
      var failed := Take(i, if protocol == Udp || connected then Connected else New);
      ok := !failed;
    }

    /** ipfix_dtls_advance_connections. */
    method AdvanceAll() returns (r: int)
      requires Valid()
      modifies this, collectors
      ensures Valid() && maxMessageSize <= old(maxMessageSize)
      ensures forall i :: 0 <= i < collectors.Length ==> Advances(old(collectors[i]), collectors[i], r)
    {
      r := 0;
      for i := 0 to collectors.Length
        invariant Valid() && maxMessageSize <= old(maxMessageSize) && 0 <= r <= 1
        invariant forall j :: 0 <= j < i ==> Advances(old(collectors[j]), collectors[j], r)
        invariant forall j :: i <= j < collectors.Length ==> collectors[j] == old(collectors[j])
      {
        if !collectors[i].state.Unused? && IsDtls(collectors[i]) {
          assert Settled(collectors[..][i]);
          var clock: Clock, h: Handshake := *, *;
          var rc := Manage(i, clock, h);
          if rc != 0 {
            r := 1;
          }
          assert Manages(old(collectors[i]), collectors[i], rc, clock, h);
        }
      }
    }

    /** ipfix_deinit_exporter: everything is given back. */
    method Deinit()
      requires Valid()
      modifies this, collectors
      ensures Valid() && openSockets == {} && liveSsl == {}
    {
      for i := 0 to collectors.Length
        invariant Valid()
        invariant forall j :: 0 <= j < i ==> collectors[j].state.Unused?
      {
        if !collectors[i].state.Unused? {
          assert Settled(collectors[..][i]);
          RemoveCollector(i);
        }
      }
      NothingLeaks();
    }

    /** ipfix_send_templates for one collector; more tells whether the loop goes on to the next one. */
    method SendTemplatesTo(i: nat) returns (more: bool)
      requires Valid() && i < collectors.Length
      modifies this, collectors
      ensures Valid() && Lowers(i)
      ensures !more ==> IsDtls(old(collectors[i])) && !collectors[i].state.Connected?
    {
      assert Settled(collectors[..][i]);
      more := true;
      if collectors[i].state.Unused? || !IsDtls(collectors[i]) {
        return;
      }
      var clock: Clock, h: Handshake, due: bool := *, *, *;
      var rc := Manage(i, clock, h);
      if rc < 0 {
        return;
      }
      if !collectors[i].state.Connected? {
        return false;
      }
      if due {
        OfferTemplates(i);
      }
    }

    /** The templates go out to a connected collector. */
    method OfferTemplates(i: nat)
      requires Valid() && i < collectors.Length && IsDtls(collectors[i]) && collectors[i].state.Connected?
      modifies this, collectors
      ensures Valid() && Lowers(i)
    {
      assert Settled(collectors[..][i]);
      if collectors[i].protocol == DtlsOverSctp {
        var r := Send(i);
      } else {
        var r := SendTemplates(i);
      }
    }

    /** ipfix_send_templates: the first collector that is not connected yet ends the loop. */
    method SendAllTemplates() returns (stop: nat)
      requires Valid()
      modifies this, collectors
      ensures Valid() && maxMessageSize <= old(maxMessageSize) && stop <= collectors.Length
      ensures stop < collectors.Length ==> IsDtls(old(collectors[stop])) && !collectors[stop].state.Connected?
      ensures forall j :: stop < j < collectors.Length ==> collectors[j] == old(collectors[j])
    {
      for i := 0 to collectors.Length
        invariant Valid() && maxMessageSize <= old(maxMessageSize)
        invariant forall j :: i <= j < collectors.Length ==> collectors[j] == old(collectors[j])
      {
        var more := SendTemplatesTo(i);
        if !more {
          return i;
        }
      }
      stop := collectors.Length;
    }

    /** A message is sent to a collector over UDP: one that is too long for the path has the MTU looked up again. */
    method SendUdp(i: nat)
      requires Valid() && i < collectors.Length && collectors[i].protocol == Udp
      modifies this, collectors
      ensures Valid() && Lowers(i)
    {
      assert Settled(collectors[..][i]);
      var tooLong: bool, a: Answers := *, *;
      if tooLong {
        var failed := UpdateMtu(i, a);
      }
    }

    /**
     * Any run of an exporter: at each step the user adds or removes a collector, sends data or
     * templates, or advances one or all connections.  Whatever happens, the connections hold
     * what is open, and the limit for messages never grows and suits the path of every collector
     * over UDP whose MTU has room for the headers.
     */
    method AnyRun(steps: nat)
      requires Valid()
      modifies this, collectors
      ensures Valid() && maxMessageSize <= old(maxMessageSize)
      ensures openSockets == Held(collectors[..], SocketOf) && liveSsl == Held(collectors[..], SslOf)
      ensures forall i :: 0 <= i < collectors.Length ==> SuitsPath(collectors[..][i], maxMessageSize)
    {
      for step := 0 to steps
        invariant Valid() && maxMessageSize <= old(maxMessageSize)
      {
        var i: nat, what: nat := *, *;
        if i < collectors.Length {
          AnyStep(i, what);
        }
      }
      NothingLeaks();
      SizedSuitsPaths(collectors[..], maxMessageSize);
    }

    method AnyStep(i: nat, what: nat)
      requires Valid() && i < collectors.Length
      modifies this, collectors
      ensures Valid() && maxMessageSize <= old(maxMessageSize)
    {
      match what {
        case 0 => var r := AdvanceAll();
        case 1 => var stop := SendAllTemplates();
        case 2 => AnyRemoval(i);
        case _ =>
          if collectors[i].state.Unused? {
            AnyAddition(i);
          } else if IsDtls(collectors[i]) {
            AnyDtlsCall(i, what);
          } else if collectors[i].protocol == Udp {
            SendUdp(i);
          } else {
            AnyAssociation(i);
          }
      }
    }

    method AnyRemoval(i: nat)
      requires Valid() && i < collectors.Length
      modifies this, collectors
      ensures Valid() && Lowers(i)
    {
      assert Settled(collectors[..][i]);
      Drop(i);
    }

    method AnyAddition(i: nat)
      requires Valid() && i < collectors.Length && collectors[i].state.Unused?
      modifies this, collectors
      ensures Valid() && Lowers(i)
    {
      var protocol: Protocol, mtu: U16, answer: bool := *, *, *;
      if protocol == DtlsOverUdp || protocol == DtlsOverSctp {
        var ok := AddDtls(i, protocol, mtu, answer);
      } else {
        var ok := AddOther(i, protocol, mtu, answer);
      }
    }

    method AnyDtlsCall(i: nat, what: nat)
      requires Valid() && i < collectors.Length && IsDtls(collectors[i])
      modifies this, collectors
      ensures Valid() && Lowers(i)
    {
      assert Settled(collectors[..][i]);
      if what == 3 {
        var r := Send(i);
      } else {
        var clock: Clock, h: Handshake := *, *;
        var rc := Manage(i, clock, h);
      }
    }

    /** The association of an SCTP collector comes and goes. */
    method AnyAssociation(i: nat)
      requires Valid() && i < collectors.Length && collectors[i].protocol == OtherProtocol
      modifies collectors
      ensures Valid() && Lowers(i)
    {
      assert Settled(collectors[..][i]);
      var state: CollectorState := *;
      SetState(i, state);
    }
  }
}
