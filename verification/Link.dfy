/** bt.cpp and auth.cpp: which links are admitted, and the connection reference that is held for one.
    What the Bluetooth stack reports is passed in. */
module Link {
  import opened Wrappers

  type Connection = nat

  const BT_SECURITY_L2 := 2

  // auth.cpp

  datatype ConfirmHandler = PairingAccept | PairingDeny

  /** The registered pairing callbacks. */
  class Auth {
    var pairingConfirm: ConfirmHandler
    var passkeyDisplay: bool  // whether a passkey handler is set

    /** The passkey is shown exactly while pairing is accepted. */
    ghost predicate Valid()
      reads this
    {
      passkeyDisplay <==> pairingConfirm == PairingAccept
    }

    constructor ()
      ensures Valid() && pairingConfirm == PairingDeny && !passkeyDisplay
    {
      pairingConfirm, passkeyDisplay := PairingDeny, false;
    }

    predicate Pairable()
      reads this
    {
      pairingConfirm == PairingAccept
    }

    method SetPairable(pairable: bool)
      modifies this
      ensures Valid() && pairingConfirm == (if pairable then PairingAccept else PairingDeny)
      ensures passkeyDisplay == pairable
    {
      if pairable {
        pairingConfirm := PairingAccept;
        passkeyDisplay := true;
      } else {
        pairingConfirm := PairingDeny;
        passkeyDisplay := false;
      }
    }

    /** A completed pairing closes the gate. */
    method PairingComplete()
      modifies this
      ensures Valid() && pairingConfirm == PairingDeny && !passkeyDisplay
    {
      SetPairable(false);
    }
  }

  // bt.cpp

  /** How a link came in: the gate, the bond list and the answer to the security request. */
  datatype Admission = Admission(conn: Connection, pairable: bool, bonded: bool, setSecurity: int)

  datatype SecurityChange = SecurityChange(conn: Connection, level: nat, err: nat)

  ghost predicate SecureOnly(discoveries: seq<SecurityChange>) {
    forall d :: d in discoveries ==> d.err == 0 && d.level >= BT_SECURITY_L2
  }

  /** The current link came in through the gate or a bond, and its security request succeeded. */
  ghost predicate Admitted(admission: Option<Admission>, current: Option<Connection>) {
    && admission.Some? && current == Some(admission.value.conn)
    && (admission.value.pairable || admission.value.bonded) && admission.value.setSecurity == 0
  }

  lemma AdmittedNow(a: Admission)
    ensures (a.pairable || a.bonded) && a.setSecurity == 0 ==> Admitted(Some(a), Some(a.conn))
  {
  }

  /** The references due for the current link. */
  ghost function Held(current: Option<Connection>): multiset<Connection> {
    if current.Some? then multiset{current.value} else multiset{}
  }

  /** bt_conn_ref: one more reference to the link. */
  ghost function Ref(refs: multiset<Connection>, conn: Connection): (r: multiset<Connection>)
    ensures |r| == |refs| + 1 && Held(Some(conn)) <= r
  {
    refs + multiset{conn}
  }

  /** bt_conn_unref: one fewer. */
  ghost function Unref(refs: multiset<Connection>, conn: Connection): (r: multiset<Connection>)
    requires Held(Some(conn)) <= refs
    ensures |r| == |refs| - 1
  {
    refs - multiset{conn}
  }

  lemma HeldNothing(refs: multiset<Connection>)
    ensures Held(None) <= refs
  {
  }

  class Manager {
    const auth: Auth
    var connected: bool
    var current: Option<Connection>
    var mtuMaxSendLen: int
    ghost var refs: multiset<Connection>  // the connection references held
    ghost var admission: Option<Admission>  // of the latest link
    ghost var discoveries: seq<SecurityChange>  // what service discovery was started on

    /** The current link's reference is held; the module reports a connection only for a held link
        that came in through the gate or a bond and whose security request succeeded; discovery was only
        ever started on an error-free change to a secure level. */
    ghost predicate Valid()
      reads this
    {
      && Held(current) <= refs
      && (connected ==> Admitted(admission, current))
      && SecureOnly(discoveries)
    }

    constructor (auth: Auth)
      ensures Valid() && this.auth == auth && !connected && current == None
      ensures refs == multiset{} && discoveries == []
    {
      this.auth := auth;
      connected, current, mtuMaxSendLen := false, None, 0;
      refs, admission, discoveries := multiset{}, None, [];
    }

    /** A connection event: its error, the bond list's and the stack's answers, the MTU. A successful one
        takes a reference, whether or not one is held already. A link that is not admitted is asked to
        disconnect (reject), and its reference kept until it has. */
    method Connected(conn: Connection, err: nat, bonded: bool, setSecurity: int, mtu: int) returns (reject: bool)
      requires Valid()
      modifies this
      ensures Valid()
      ensures refs == if err == 0 then Ref(old(refs), conn) else old(refs)
      ensures discoveries == old(discoveries)
      ensures connected <==> err == 0 && (auth.pairingConfirm == PairingAccept || bonded) && setSecurity == 0
      ensures err != 0 ==>
        current == old(current) && mtuMaxSendLen == old(mtuMaxSendLen) && !reject
      ensures err == 0 ==> current == Some(conn) && mtuMaxSendLen == mtu - 3
      ensures err == 0 ==> (reject <==> !connected)
    {
      hide SecureOnly, Held, Admitted, Ref, Auth.Valid;
      reject := false;
      connected := false;
      if err != 0 {
        return;
      }
      current := Some(conn);
      refs := Ref(refs, conn);
      mtuMaxSendLen := mtu - 3;
      admission := Some(Admission(conn, auth.Pairable(), bonded, setSecurity));
      AdmittedNow(admission.value);
      if auth.Pairable() || bonded {
        if setSecurity != 0 {
          reject := true;
          return;
        }
        connected := true;
      } else {
        reject := true;
      }
    }

    /** A disconnection event gives the current link's reference back, once, whichever link it is about. */
    method Disconnected()
      requires Valid()
      modifies this
      ensures Valid() && !connected && current == None
      ensures refs == if old(current).Some? then Unref(old(refs), old(current).value) else old(refs)
      ensures discoveries == old(discoveries) && mtuMaxSendLen == old(mtuMaxSendLen)
    {
      hide SecureOnly, Held, Admitted, Unref;
      if current.Some? {
        refs := Unref(refs, current.value);
        current := None;
      }
      HeldNothing(refs);
      connected := false;
    }

    /** A security event: discovery on an error-free secure level, disconnection on an error. */
    method SecurityChanged(conn: Connection, level: nat, err: nat) returns (reject: bool)
      requires Valid()
      modifies this
      ensures Valid()
      ensures connected == old(connected) && current == old(current) && refs == old(refs)
      ensures mtuMaxSendLen == old(mtuMaxSendLen)
      ensures discoveries == old(discoveries) +
        (if err == 0 && level >= 2 then [SecurityChange(conn, level, err)] else [])
      ensures reject <==> err != 0
    {
      reject := false;
      if err != 0 {
        reject := true;
      } else if level >= BT_SECURITY_L2 {
        discoveries := discoveries + [SecurityChange(conn, level, err)];
      }
    }

    /** secure_connection, with the stack's security level of the current link. */
    method SecureConnection(level: nat) returns (secure: bool)
      ensures secure <==> current.Some? && level >= BT_SECURITY_L2
    {
      if current.None? {
        return false;
      }
      return level >= BT_SECURITY_L2;
    }
  }

  // Runs of events

  /** What the Bluetooth stack and the user do to the two modules. */
  datatype Event =
    | LinkUp(conn: Connection, err: nat, bonded: bool, setSecurity: int, mtu: int)
    | LinkDown
    | Secured(conn: Connection, level: nat, err: nat)
    | SetPairable(on: bool)
    | Paired

  predicate GateOpen(h: seq<Event>) {
    h != [] &&
    match h[|h| - 1]
    case SetPairable(on) => on
    case Paired => false
    case _ => GateOpen(h[..|h| - 1])
  }

  function HeldLink(h: seq<Event>): Option<Connection> {
    if h == [] then None
    else
      match h[|h| - 1]
      case LinkUp(conn, err, _, _, _) => if err == 0 then Some(conn) else HeldLink(h[..|h| - 1])
      case LinkDown => None
      case _ => HeldLink(h[..|h| - 1])
  }

  /** After the history h, the event brings a link that is admitted. */
  predicate Admits(h: seq<Event>, e: Event) {
    e.LinkUp? && e.err == 0 && (GateOpen(h) || e.bonded) && e.setSecurity == 0
  }

  predicate Reported(h: seq<Event>) {
    h != [] &&
    match h[|h| - 1]
    case LinkUp(_, _, _, _, _) => Admits(h[..|h| - 1], h[|h| - 1])
    case LinkDown => false
    case _ => Reported(h[..|h| - 1])
  }

  function Discovered(h: seq<Event>): seq<SecurityChange> {
    if h == [] then []
    else
      var e := h[|h| - 1];
      Discovered(h[..|h| - 1]) +
      (if e.Secured? && e.err == 0 && e.level >= BT_SECURITY_L2 then [SecurityChange(e.conn, e.level, e.err)] else [])
  }

  /** Whom the event asks to disconnect. */
  function RejectedBy(h: seq<Event>, e: Event): seq<Connection> {
    if (e.LinkUp? && e.err == 0 && !Admits(h, e)) || (e.Secured? && e.err != 0) then [e.conn] else []
  }

  function Rejected(h: seq<Event>): seq<Connection> {
    if h == [] then [] else Rejected(h[..|h| - 1]) + RejectedBy(h[..|h| - 1], h[|h| - 1])
  }

  /** No link comes up while one is held. */
  predicate OneLink(h: seq<Event>) {
    h == [] ||
    (OneLink(h[..|h| - 1]) && (h[|h| - 1].LinkUp? && h[|h| - 1].err == 0 ==> HeldLink(h[..|h| - 1]).None?))
  }

  /** The two modules stand as the history h says: registered pairing handlers, reported connection, current link,
      discoveries, rejections, and as many references held as were taken and not given back. */
  ghost predicate Tracks(m: Manager, rejected: seq<Connection>, h: seq<Event>)
    reads m, m.auth
  {
    && m.Valid() && m.auth.Valid()
    && m.auth.pairingConfirm == (if GateOpen(h) then PairingAccept else PairingDeny)
    && m.auth.passkeyDisplay == GateOpen(h)
    && m.connected == Reported(h) && m.current == HeldLink(h)
    && m.discoveries == Discovered(h) && rejected == Rejected(h)
    && |m.refs| == Taken(h) - Released(h)
  }

  /** The two modules, started afresh, under any run of events. The references held are exactly the current
      link's if and only if no link came up while one was held. */
  method Dispatch(m: Manager, events: seq<Event>) returns (ghost rejected: seq<Connection>)
    requires m.Valid() && !m.connected && m.current == None
    requires m.auth.pairingConfirm == PairingDeny && !m.auth.passkeyDisplay
    requires m.refs == multiset{} && m.discoveries == []
    modifies m, m.auth
    ensures Tracks(m, rejected, events)
    ensures m.refs == Held(m.current) <==> OneLink(events)
  {
    hide *;
    rejected := [];
    ghost var h: seq<Event> := [];
    NoEvents(m);
    for i := 0 to |events|
      invariant h == events[..i] && Tracks(m, rejected, h)
    {
      assert events[..i + 1] == h + [events[i]];
      rejected := Handle(m, events[i], rejected, h);
      h := h + [events[i]];
    }
    assert h == events;
    ReferencesHeld(m, rejected, events);
  }

  /** One event. */
  method Handle(m: Manager, e: Event, ghost before: seq<Connection>, ghost h: seq<Event>)
    returns (ghost rejected: seq<Connection>)
    requires Tracks(m, before, h)
    modifies m, m.auth
    ensures Tracks(m, rejected, h + [e])
  {
    hide Admitted, Held, SecureOnly, Ref, Unref, Auth.Valid;
    hide GateOpen, HeldLink, Reported, Discovered, Rejected, Taken, Released;
    NextEvent(h, e);
    NextReferences(h, e);
    ghost var reject := false;
    match e {
      case LinkUp(conn, err, bonded, setSecurity, mtu) =>
        reject := m.Connected(conn, err, bonded, setSecurity, mtu);
      case LinkDown =>
        m.Disconnected();
      case Secured(conn, level, err) =>
        reject := m.SecurityChanged(conn, level, err);
      case SetPairable(on) =>
        m.auth.SetPairable(on);
      case Paired =>
        m.auth.PairingComplete();
    }
    rejected := before + (if reject then [e.conn] else []);
  }

  lemma HeldSize(refs: multiset<Connection>, current: Option<Connection>)
    ensures |Held(current)| == if current.Some? then 1 else 0
    ensures Held(current) <= refs ==> |refs - Held(current)| == |refs| - |Held(current)|
  {
  }

  lemma NoEvents(m: Manager)
    requires m.Valid() && !m.connected && m.current == None
    requires m.auth.pairingConfirm == PairingDeny && !m.auth.passkeyDisplay
    requires m.refs == multiset{} && m.discoveries == []
    ensures Tracks(m, [], [])
  {
  }

  lemma ReferencesHeld(m: Manager, rejected: seq<Connection>, h: seq<Event>)
    requires Tracks(m, rejected, h)
    ensures m.refs == Held(m.current) <==> OneLink(h)
  {
    hide Reported, Discovered, Rejected, GateOpen, OneLink, Admitted, SecureOnly, Held, Taken, Released;
    ReferenceBalance(h);
    HeldSize(m.refs, m.current);
    if |m.refs - Held(m.current)| == 0 {
      assert m.refs == Held(m.current) + (m.refs - Held(m.current));
    }
  }

  /** One event's step of each of the histories. */
  lemma NextEvent(h: seq<Event>, e: Event)
    ensures GateOpen(h + [e]) == if e.SetPairable? then e.on else !e.Paired? && GateOpen(h)
    ensures HeldLink(h + [e]) ==
      if e.LinkUp? && e.err == 0 then Some(e.conn) else if e.LinkDown? then None else HeldLink(h)
    ensures Reported(h + [e]) == if e.LinkUp? then Admits(h, e) else !e.LinkDown? && Reported(h)
    ensures Discovered(h + [e]) == Discovered(h) +
      if e.Secured? && e.err == 0 && e.level >= BT_SECURITY_L2 then [SecurityChange(e.conn, e.level, e.err)] else []
    ensures Rejected(h + [e]) == Rejected(h) + RejectedBy(h, e)
  {
    assert (h + [e])[..|h|] == h;
  }

  lemma NextReferences(h: seq<Event>, e: Event)
    ensures Taken(h + [e]) == Taken(h) + if e.LinkUp? && e.err == 0 then 1 else 0
    ensures Released(h + [e]) == Released(h) + if e.LinkDown? && HeldLink(h).Some? then 1 else 0
  {
    assert (h + [e])[..|h|] == h;
  }

  // What the histories mean

  /** Opened at g, the gate is still open at k: neither closed nor opened anew in between, and no pairing completed. */
  predicate OpenedAt(h: seq<Event>, g: int, k: int) {
    0 <= g < k <= |h| && h[g] == SetPairable(true) && forall j :: g < j < k ==> !h[j].SetPairable? && !h[j].Paired?
  }

  lemma {:induction false} GateOpenIff(h: seq<Event>)
    ensures GateOpen(h) <==> exists g :: OpenedAt(h, g, |h|)
  {
    if h != [] {
      var n := |h| - 1;
      var front := h[..n];
      GateOpenIff(front);
      if h[n] == SetPairable(true) {
        assert OpenedAt(h, n, |h|);
      } else if !h[n].SetPairable? && !h[n].Paired? {
        forall g
          ensures OpenedAt(h, g, |h|) <==> OpenedAt(front, g, n)
        {
          assert forall j :: 0 <= j < n ==> front[j] == h[j];
        }
      } else {
        forall g
          ensures !OpenedAt(h, g, |h|)
        {
        }
      }
    }
  }

  /** The link that came at k was admitted: without error, with its security request accepted, and bonded or
      while the gate, opened at some g, had been closed by nothing since. */
  ghost predicate AdmittedAt(h: seq<Event>, k: int) {
    0 <= k < |h| && h[k].LinkUp? && h[k].err == 0 && h[k].setSecurity == 0 &&
    (h[k].bonded || exists g :: OpenedAt(h, g, k))
  }

  lemma AdmitsIff(h: seq<Event>, k: nat)
    requires k < |h|
    ensures Admits(h[..k], h[k]) <==> AdmittedAt(h, k)
  {
    GateOpenIff(h[..k]);
    forall g
      ensures OpenedAt(h[..k], g, k) <==> OpenedAt(h, g, k)
    {
      assert forall j :: 0 <= j < k ==> h[..k][j] == h[j];
    }
  }

  /** The link that came at k is the latest the stack spoke of. */
  ghost predicate LatestAt(h: seq<Event>, k: int) {
    0 <= k < |h| && h[k].LinkUp? && forall j :: k < j < |h| ==> !h[j].LinkUp? && !h[j].LinkDown?
  }

  /** bt::connected() after any run: there is a connection exactly when the latest link event brought a link
      that was admitted, and that link is the one held. */
  lemma {:induction false} ReportedIff(h: seq<Event>)
    ensures Reported(h) <==> exists k :: LatestAt(h, k) && AdmittedAt(h, k)
    ensures forall k :: LatestAt(h, k) && AdmittedAt(h, k) ==> HeldLink(h) == Some(h[k].conn)
  {
    if h != [] {
      var n := |h| - 1;
      var front := h[..n];
      ReportedIff(front);
      if h[n].LinkUp? {
        AdmitsIff(h, n);
        assert forall k :: LatestAt(h, k) <==> k == n;
      } else if !h[n].LinkDown? {
        forall k
          ensures LatestAt(h, k) <==> LatestAt(front, k)
          ensures LatestAt(h, k) ==> front[k] == h[k] && (AdmittedAt(h, k) <==> AdmittedAt(front, k))
        {
          FrontAgrees(h, k);
        }
      } else {
        assert forall k :: !LatestAt(h, k);
      }
    }
  }

  lemma FrontAgrees(h: seq<Event>, k: int)
    requires h != [] && !h[|h| - 1].LinkUp? && !h[|h| - 1].LinkDown?
    ensures LatestAt(h, k) <==> LatestAt(h[..|h| - 1], k)
    ensures 0 <= k < |h| - 1 ==> (AdmittedAt(h, k) <==> AdmittedAt(h[..|h| - 1], k))
  {
    var front := h[..|h| - 1];
    assert forall j :: 0 <= j < |front| ==> front[j] == h[j];
    if 0 <= k < |front| {
      AdmitsIff(h, k);
      AdmitsIff(front, k);
      assert front[..k] == h[..k];
    }
  }

  /** A completed pairing closes the gate: until it is opened again every unbonded link is rejected. */
  lemma PairingCloses(h: seq<Event>, p: nat, k: nat)
    requires p < k < |h| && h[p] == Paired && forall j :: p < j < k ==> h[j] != SetPairable(true)
    requires h[k].LinkUp? && h[k].err == 0 && !h[k].bonded
    ensures !Reported(h[..k + 1]) && Rejected(h[..k + 1]) == Rejected(h[..k]) + [h[k].conn]
  {
    AdmitsIff(h, k);
    forall g
      ensures !OpenedAt(h, g, k)
    {
    }
    NextEvent(h[..k], h[k]);
    assert h[..k] + [h[k]] == h[..k + 1];
  }

  // References over a run

  /** The references taken: one for every link that comes up. */
  function Taken(h: seq<Event>): nat {
    if h == [] then 0
    else Taken(h[..|h| - 1]) + if h[|h| - 1].LinkUp? && h[|h| - 1].err == 0 then 1 else 0
  }

  /** The references given back: one for every disconnection of a held link. */
  function Released(h: seq<Event>): nat {
    if h == [] then 0
    else Released(h[..|h| - 1]) + if h[|h| - 1].LinkDown? && HeldLink(h[..|h| - 1]).Some? then 1 else 0
  }

  /** Over every run the references taken are those given back and the current link's, exactly when no link
      ever came up while another was held; otherwise some are never given back. */
  lemma {:induction false} ReferenceBalance(h: seq<Event>)
    ensures var held := if HeldLink(h).Some? then 1 else 0;
            && Taken(h) >= Released(h) + held
            && (Taken(h) == Released(h) + held <==> OneLink(h))
  {
    if h != [] {
      ReferenceBalance(h[..|h| - 1]);
    }
  }
}
