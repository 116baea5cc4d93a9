/** The framing protocol of gadgetbridge.cpp as a function from packets to commands, and its
    laws over whole runs: which packet sequences deliver a command, and that nothing else does. */
module Framing {
  import opened Ascii
  import opened Bytes
  import opened Wrappers

  const MAX_RECV_LEN := 1000

  predicate Known(sv: Text) {
    GB_OPEN <= sv || SET_TIME <= sv
  }

  /** The receiver between two packets. */
  datatype Rx = Idle | Consuming(body: Text)

  /** What one or more packets lead to: the next state, and the texts handed to the parser. */
  datatype Reaction = Reaction(next: Rx, parsed: seq<Text>)

  /** A lone 0x10 while consuming would read the last byte of an empty view. */
  predicate Defined(s: Rx, p: Text) {
    s.Consuming? ==> p != [START]
  }

  function React(s: Rx, p: Text): Reaction
    requires Defined(s, p)
  {
    if p == [] then Reaction(s, [])
    else if p[0] != START then
      if s.Idle? then Reaction(Idle, []) else Append(s.body, p)
    else
      // an unknown command leaves a consuming receiver consuming
      if Known(p[1..]) || s.Consuming? then Append([], p[1..]) else Reaction(Idle, [])
  }

  /** A newline ends the command only as the last byte of a packet; what does not fit is dropped. */
  function Append(body: Text, sv: Text): Reaction
    requires sv != []
  {
    var done := sv[|sv| - 1] == NEWLINE;
    var chunk := if done then sv[..|sv| - 1] else sv;
    if |body| + |chunk| > MAX_RECV_LEN then Reaction(Idle, [])
    else if done then Reaction(Idle, [body + chunk])
    else Reaction(Consuming(body + chunk), [])
  }

  // Runs

  predicate Feasible(s: Rx, ps: seq<Text>)
    decreases ps
  {
    ps != [] ==> Defined(s, ps[0]) && Feasible(React(s, ps[0]).next, ps[1..])
  }

  function Run(s: Rx, ps: seq<Text>): Reaction
    requires Feasible(s, ps)
    decreases ps
  {
    if ps == [] then Reaction(s, [])
    else
      var r := React(s, ps[0]);
      var rest := Run(r.next, ps[1..]);
      Reaction(rest.next, r.parsed + rest.parsed)
  }

  /** A reaction followed by a run. */
  function Then(r: Reaction, ps: seq<Text>): Reaction
    requires Feasible(r.next, ps)
  {
    var t := Run(r.next, ps);
    Reaction(t.next, r.parsed + t.parsed)
  }

  lemma RunStep(s: Rx, p: Text, ps: seq<Text>)
    requires Defined(s, p)
    ensures Feasible(s, [p] + ps) <==> Feasible(React(s, p).next, ps)
    ensures Feasible(s, [p] + ps) ==> Run(s, [p] + ps) == Then(React(s, p), ps)
  {
    hide React;
    assert ([p] + ps)[1..] == ps;
  }

  lemma ThenThen(r: Reaction, ps: seq<Text>, qs: seq<Text>)
    requires Feasible(r.next, ps) && Feasible(Then(r, ps).next, qs) && Feasible(r.next, ps + qs)
    requires Run(r.next, ps + qs) == Then(Run(r.next, ps), qs)
    ensures Then(r, ps + qs) == Then(Then(r, ps), qs)
  {
    hide Run, Feasible;
  }

  lemma {:induction false} RunConcat(s: Rx, ps: seq<Text>, qs: seq<Text>)
    requires Feasible(s, ps) && Feasible(Run(s, ps).next, qs)
    ensures Feasible(s, ps + qs)
    ensures Run(s, ps + qs) == Then(Run(s, ps), qs)
    decreases ps
  {
    hide React, Defined;
    if ps == [] {
      assert ps + qs == qs;
    } else {
      hide Run;
      var p, rest := ps[0], ps[1..];
      assert [p] + rest == ps && [p] + (rest + qs) == ps + qs;
      RunStep(s, p, rest);
      RunConcat(React(s, p).next, rest, qs);
      RunStep(s, p, rest + qs);
      ThenThen(React(s, p), rest, qs);
    }
  }

  // Which splits deliver a command

  function Last(p: Text): Byte
    requires p != []
  {
    p[|p| - 1]
  }

  predicate NonEmpty(ps: seq<Text>) {
    forall k :: 0 <= k < |ps| ==> ps[k] != []
  }

  /** The packets hold 0x10, the command and a newline, and nothing else. */
  predicate Split(ps: seq<Text>, c: Text) {
    ps != [] && NonEmpty(ps) && Flatten(ps) == [START] + c + [NEWLINE]
  }

  /** No packet but the last ends in a newline. */
  predicate NoEarlyEnd(ps: seq<Text>)
    requires NonEmpty(ps)
  {
    forall k :: 0 <= k < |ps| - 1 ==> Last(ps[k]) != NEWLINE
  }

  predicate NoStart(ps: seq<Text>)
    requires NonEmpty(ps)
  {
    forall k :: 0 <= k < |ps| ==> ps[k][0] != START
  }

  /** The cuts fall neither behind a newline of the command nor in front of a 0x10 of it. */
  predicate Quiet(ps: seq<Text>)
    requires ps != [] && NonEmpty(ps)
  {
    NoEarlyEnd(ps) && NoStart(ps[1..])
  }

  /** The receiver takes the command up: it sees the whole prefix at once, or was consuming anyway. */
  predicate Opens(s: Rx, p: Text)
    requires p != []
  {
    Known(p[1..]) || s.Consuming?
  }

  /** An idle receiver drops every packet up to the next 0x10. */
  lemma {:induction false} IdleDrops(ps: seq<Text>)
    requires NonEmpty(ps) && NoStart(ps)
    ensures Feasible(Idle, ps) && Run(Idle, ps) == Reaction(Idle, [])
  {
    if ps != [] {
      IdleDrops(ps[1..]);
    }
  }

  /** A receiver that has opened collects quiet packets, however they are cut, up to the newline.
      `sv` is the packet at hand, `rest` the packets after it. */
  lemma {:induction false} Collect(body: Text, sv: Text, rest: seq<Text>, c: Text)
    requires |body| <= MAX_RECV_LEN
    requires sv != [] && NonEmpty(rest) && NoStart(rest)
    requires NoEarlyEnd(rest) && (rest != [] ==> Last(sv) != NEWLINE)
    requires sv + Flatten(rest) == c + [NEWLINE]
    ensures Feasible(Append(body, sv).next, rest)
    ensures Then(Append(body, sv), rest) ==
      Reaction(Idle, if |body| + |c| <= MAX_RECV_LEN then [body + c] else [])
    decreases rest
  {
    if rest == [] {
      assert sv == c + [NEWLINE];
      assert sv[..|sv| - 1] == c;
    } else {
      CutPacket(sv, rest, c);
      if |body| + |sv| > MAX_RECV_LEN {
        IdleDrops(rest);
      } else {
        Collect(body + sv, rest[0], rest[1..], c[|sv|..]);
        assert body + sv + c[|sv|..] == body + c;
      }
    }
  }

  lemma CutPacket(sv: Text, rest: seq<Text>, c: Text)
    requires rest != [] && NonEmpty(rest) && sv + Flatten(rest) == c + [NEWLINE]
    ensures |sv| <= |c| && c == sv + c[|sv|..]
    ensures rest[0] + Flatten(rest[1..]) == c[|sv|..] + [NEWLINE]
  {
    var tail := Flatten(rest);
    assert |tail| >= |rest[0]| > 0;
    assert c[..|sv|] == (c + [NEWLINE])[..|sv|] == sv;
    assert c[|sv|..] + [NEWLINE] == (c + [NEWLINE])[|sv|..] == tail;
  }

  /** Delivery: from any state, a quiet split hands exactly the command to the parser, once, if the
      receiver opens on its first packet and the command fits; otherwise nothing. It ends idle. */
  lemma Delivery(s: Rx, ps: seq<Text>, c: Text)
    requires Split(ps, c) && Quiet(ps) && Defined(s, ps[0])
    ensures Feasible(s, ps)
    ensures Run(s, ps) == Reaction(Idle, if Opens(s, ps[0]) && |c| <= MAX_RECV_LEN then [c] else [])
  {
    var p, rest := ps[0], ps[1..];
    FirstPacket(ps, c);
    if Opens(s, p) {
      Collect([], p[1..], rest, c);
      assert [] + c == c;
      assert Run(s, ps) == Then(Append([], p[1..]), rest);
    } else {
      IdleDrops(rest);
    }
  }

  lemma FirstPacket(ps: seq<Text>, c: Text)
    requires Split(ps, c)
    ensures ps[0][0] == START && ps[0][1..] + Flatten(ps[1..]) == c + [NEWLINE]
  {
    var p := ps[0];
    assert p + Flatten(ps[1..]) == [START] + (c + [NEWLINE]);
    assert p[0] == (p + Flatten(ps[1..]))[0];
    assert p[1..] + Flatten(ps[1..]) == (p + Flatten(ps[1..]))[1..];
  }

  // ... and that no other split delivers it

  /** The bytes a state holds towards the command under way. */
  function Held(s: Rx): nat {
    if s.Consuming? then |s.body| else 0
  }

  /** The bytes commands take up on the line, with their newlines. */
  function Cost(commands: seq<Text>): nat {
    if commands == [] then 0 else |commands[0]| + 1 + Cost(commands[1..])
  }

  lemma {:induction false} CostConcat(a: seq<Text>, b: seq<Text>)
    ensures Cost(a + b) == Cost(a) + Cost(b)
  {
    if a == [] {
      assert a + b == b;
    } else {
      assert (a + b)[1..] == a[1..] + b;
      CostConcat(a[1..], b);
    }
  }

  lemma ReactBudget(s: Rx, p: Text)
    requires p != [] && Defined(s, p)
    ensures var r := React(s, p);
            && Cost(r.parsed) + Held(r.next) <= Held(s) + |p|
            && (s.Idle? || p[0] == START ==> Cost(r.parsed) + Held(r.next) <= Held(s) + |p| - 1)
            && (p[0] == START ==> Cost(r.parsed) + Held(r.next) <= |p| - 1)
            && (Last(p) == NEWLINE ==> r.next.Idle?)
  {
  }

  /** The commands parsed and the bytes held are paid for by the bytes received. A packet to an idle receiver,
      a restart, and a newline before the last packet each cost a byte more. */
  lemma {:induction false} RunBudget(s: Rx, ps: seq<Text>)
    requires NonEmpty(ps) && Feasible(s, ps)
    ensures var lost := if NoStart(ps) && NoEarlyEnd(ps) && (s.Consuming? || ps == []) then 0 else 1;
            Cost(Run(s, ps).parsed) + Held(Run(s, ps).next) + lost <= Held(s) + |Flatten(ps)|
    decreases ps
  {
    hide React, Held, Cost;
    if ps == [] {
      assert Cost([]) == 0 by { CostNothing(); }
    } else {
      var p, rest := ps[0], ps[1..];
      ReactBudget(s, p);
      var r := React(s, p);
      RunBudget(r.next, rest);
      CostConcat(r.parsed, Run(r.next, rest).parsed);
    }
  }

  lemma CostNothing()
    ensures Cost([]) == 0
  {
  }

  /** A frame yields at most its own bytes, and at most one fewer unless its cuts are quiet. */
  lemma FrameBudget(s: Rx, ps: seq<Text>, c: Text)
    requires Split(ps, c) && Feasible(s, ps)
    ensures Cost(Run(s, ps).parsed) <= |c| + 1
    ensures !Quiet(ps) ==> Cost(Run(s, ps).parsed) <= |c|
  {
    hide React, Held, Cost;
    var p, rest := ps[0], ps[1..];
    FirstPacket(ps, c);
    ReactBudget(s, p);
    var r := React(s, p);
    RunBudget(r.next, rest);
    CostConcat(r.parsed, Run(r.next, rest).parsed);
    assert |p| - 1 + |Flatten(rest)| == |c| + 1;
  }

  /** The receiver parses exactly the command sent, and nothing else, if and only if the cuts are
      quiet, the command fits, and the first packet opens it; otherwise what it parses falls short of it. */
  lemma DeliveredIff(s: Rx, ps: seq<Text>, c: Text)
    requires Split(ps, c) && Feasible(s, ps)
    ensures Run(s, ps).parsed == [c] <==> Quiet(ps) && Opens(s, ps[0]) && |c| <= MAX_RECV_LEN
    ensures Run(s, ps).parsed != [c] ==> Cost(Run(s, ps).parsed) <= |c|
  {
    FrameBudget(s, ps, c);
    assert [c][1..] == [] && Cost([c]) == |c| + 1;
    if Quiet(ps) {
      Delivery(s, ps, c);
    }
  }

  // Streams of commands

  datatype Frame = Frame(command: Text, packets: seq<Text>)

  /** A frame any receiver takes up: the command fits, the first packet holds its prefix, the cuts are quiet. */
  predicate Admissible(f: Frame) {
    && Split(f.packets, f.command) && Quiet(f.packets)
    && Known(f.packets[0][1..]) && |f.command| <= MAX_RECV_LEN
  }

  function Packets(fs: seq<Frame>): seq<Text> {
    if fs == [] then [] else fs[0].packets + Packets(fs[1..])
  }

  function Commands(fs: seq<Frame>): seq<Text> {
    if fs == [] then [] else [fs[0].command] + Commands(fs[1..])
  }

  /** Fragmentation independence: however the frames of a stream are cut, and whatever state the
      receiver is in, the parser gets the commands, each once and in order. */
  lemma {:induction false} StreamDelivery(s: Rx, fs: seq<Frame>)
    requires forall k :: 0 <= k < |fs| ==> Admissible(fs[k])
    ensures Feasible(s, Packets(fs))
    ensures Run(s, Packets(fs)) == Reaction(if fs == [] then s else Idle, Commands(fs))
    decreases fs
  {
    if fs != [] {
      var f := fs[0];
      assert Known(f.packets[0][1..]);
      Delivery(s, f.packets, f.command);
      StreamDelivery(Idle, fs[1..]);
      RunConcat(s, f.packets, Packets(fs[1..]));
    }
  }

  /** Each frame, in the state it meets: quiet cuts, a command that fits, and a first packet that opens it. */
  predicate AllDeliverable(s: Rx, fs: seq<Frame>)
    requires forall k :: 0 <= k < |fs| ==> Split(fs[k].packets, fs[k].command)
    requires Feasible(s, Packets(fs))
    decreases fs
  {
    fs == [] ||
    (FeasibleFrames(s, fs);
     assert Split(fs[0].packets, fs[0].command);
     && Quiet(fs[0].packets) && Opens(s, fs[0].packets[0]) && |fs[0].command| <= MAX_RECV_LEN
     && AllDeliverable(Run(s, fs[0].packets).next, fs[1..]))
  }

  lemma FeasibleFrames(s: Rx, fs: seq<Frame>)
    requires fs != [] && Feasible(s, Packets(fs))
    ensures Feasible(s, fs[0].packets) && Feasible(Run(s, fs[0].packets).next, Packets(fs[1..]))
    ensures Run(s, Packets(fs)) == Then(Run(s, fs[0].packets), Packets(fs[1..]))
  {
    FeasibleSplit(s, fs[0].packets, Packets(fs[1..]));
    RunConcat(s, fs[0].packets, Packets(fs[1..]));
  }

  lemma {:induction false} FeasibleSplit(s: Rx, ps: seq<Text>, qs: seq<Text>)
    requires Feasible(s, ps + qs)
    ensures Feasible(s, ps) && Feasible(Run(s, ps).next, qs)
    decreases ps
  {
    hide React, Defined;
    if ps == [] {
      assert ps + qs == qs;
    } else {
      assert (ps + qs)[0] == ps[0] && (ps + qs)[1..] == ps[1..] + qs;
      FeasibleSplit(React(s, ps[0]).next, ps[1..], qs);
    }
  }

  /** A stream of frames yields at most the bytes of its commands, and all of them only if it is delivered. */
  lemma {:induction false} StreamBudget(s: Rx, fs: seq<Frame>)
    requires forall k :: 0 <= k < |fs| ==> Split(fs[k].packets, fs[k].command)
    requires Feasible(s, Packets(fs))
    ensures Cost(Run(s, Packets(fs)).parsed) <= Cost(Commands(fs))
    ensures AllDeliverable(s, fs) ==> Run(s, Packets(fs)).parsed == Commands(fs)
    ensures !AllDeliverable(s, fs) ==> Cost(Run(s, Packets(fs)).parsed) < Cost(Commands(fs))
    decreases fs
  {
    hide React, Split, Quiet, Opens;
    if fs != [] {
      var f, rest := fs[0], fs[1..];
      FeasibleFrames(s, fs);
      var r := Run(s, f.packets);
      DeliveredIff(s, f.packets, f.command);
      StreamBudget(r.next, rest);
      CostConcat(r.parsed, Run(r.next, Packets(rest)).parsed);
      CostConcat([f.command], Commands(rest));
      assert [f.command][1..] == [] && Cost([f.command]) == |f.command| + 1;
    }
  }

  /** The parser gets exactly the commands of a stream of frames, each once and in order and nothing else, if and
      only if every frame is cut quietly, fits, and is opened in the state it meets. */
  lemma StreamDeliveredIff(s: Rx, fs: seq<Frame>)
    requires forall k :: 0 <= k < |fs| ==> Split(fs[k].packets, fs[k].command)
    requires Feasible(s, Packets(fs))
    ensures Run(s, Packets(fs)).parsed == Commands(fs) <==> AllDeliverable(s, fs)
  {
    StreamBudget(s, fs);
  }

  // Safety of every run

  /** The bytes since the last 0x10 packet, None before the first. */
  function Since(ps: seq<Text>): Option<Text> {
    if ps == [] then None
    else
      var p := ps[|ps| - 1];
      if p != [] && p[0] == START then Some(p[1..])
      else match Since(ps[..|ps| - 1])
        case None => None
        case Some(b) => Some(b + p)
  }

  /** A command the parser may have been given after `ps`: all bytes since a 0x10 packet, up to a
      packet that ends in a newline. */
  ghost predicate Sent(ps: seq<Text>, d: Text) {
    exists n :: 0 <= n <= |ps| && Since(ps[..n]) == Some(d + [NEWLINE])
  }

  lemma AppendExact(body: Text, sv: Text)
    requires sv != []
    ensures var r := Append(body, sv);
            && (r.next.Consuming? ==> r.next.body == body + sv && |body + sv| <= MAX_RECV_LEN)
            && forall d :: d in r.parsed ==> d + [NEWLINE] == body + sv && |d| <= MAX_RECV_LEN
  {
    if sv[|sv| - 1] == NEWLINE {
      assert body + sv[..|sv| - 1] + [NEWLINE] == body + sv;
    }
  }

  lemma SincePacket(ps: seq<Text>, p: Text)
    ensures Since(ps + [p]) ==
      if p != [] && p[0] == START then Some(p[1..])
      else if Since(ps).None? then None else Some(Since(ps).value + p)
  {
    assert (ps + [p])[..|ps|] == ps;
  }

  lemma ReactSince(s: Rx, ps: seq<Text>, p: Text)
    requires Defined(s, p)
    requires s.Consuming? ==> Since(ps) == Some(s.body) && |s.body| <= MAX_RECV_LEN
    ensures var r := React(s, p);
            && (r.next.Consuming? ==> Since(ps + [p]) == Some(r.next.body) && |r.next.body| <= MAX_RECV_LEN)
            && forall d :: d in r.parsed ==> Since(ps + [p]) == Some(d + [NEWLINE]) && |d| <= MAX_RECV_LEN
  {
    hide Append, Since, Known;
    SincePacket(ps, p);
    if p == [] {
      assert s.Consuming? ==> s.body + p == s.body;
    } else if p[0] != START {
      if s.Consuming? {
        AppendExact(s.body, p);
      }
    } else if p != [START] {
      AppendExact([], p[1..]);
      assert [] + p[1..] == p[1..];
    } else {
      KnownNotEmpty();
    }
  }

  lemma KnownNotEmpty()
    ensures !Known([])
  {
  }

  /** The receiver's invariant over every run, and the origin of every parsed command: a consuming
      receiver holds exactly the bytes since the last 0x10 packet, at most a buffer full; a parsed
      command is exactly the bytes since a 0x10 packet, so no abandoned part ever gets into it. */
  lemma {:induction false} RunInvariant(ps: seq<Text>)
    requires Feasible(Idle, ps)
    ensures var r := Run(Idle, ps);
            && (r.next.Consuming? ==> Since(ps) == Some(r.next.body) && |r.next.body| <= MAX_RECV_LEN)
            && forall d :: d in r.parsed ==> Sent(ps, d) && |d| <= MAX_RECV_LEN
    decreases ps
  {
    hide React, Sent, Since, Defined;
    if ps != [] {
      var n := |ps| - 1;
      var front, p := ps[..n], ps[n];
      assert ps == front + [p];
      FeasibleSplit(Idle, front, [p]);
      RunInvariant(front);
      var s := Run(Idle, front).next;
      ReactSince(s, front, p);
      RunOne(s, p);
      RunConcat(Idle, front, [p]);
      forall d | d in Run(Idle, ps).parsed
        ensures Sent(ps, d) && |d| <= MAX_RECV_LEN
      {
        SentLater(front, p, d);
        assert d in Run(Idle, front).parsed || d in React(s, p).parsed;
      }
    }
  }

  lemma SentLater(ps: seq<Text>, p: Text, d: Text)
    ensures Sent(ps, d) ==> Sent(ps + [p], d)
    ensures Since(ps + [p]) == Some(d + [NEWLINE]) ==> Sent(ps + [p], d)
  {
    hide Since;
    if Sent(ps, d) {
      var m :| 0 <= m <= |ps| && Since(ps[..m]) == Some(d + [NEWLINE]);
      assert (ps + [p])[..m] == ps[..m];
    }
    assert (ps + [p])[..|ps| + 1] == ps + [p];
  }

  lemma RunOne(s: Rx, p: Text)
    requires Defined(s, p)
    ensures Feasible(s, [p]) && Run(s, [p]) == React(s, p)
  {
    hide React;
    RunStep(s, p, []);
    assert [p] + [] == [p];
  }

  /** Resynchronisation: whatever came before, from a 0x10 packet with a known prefix on a run parses
      what a fresh receiver would. */
  lemma Resynchronises(s: Rx, before: seq<Text>, p: Text, later: seq<Text>)
    requires p != [] && p[0] == START && Known(p[1..])
    requires Feasible(s, before) && Feasible(Idle, [p] + later)
    ensures Feasible(s, before + ([p] + later))
    ensures var r := Run(s, before + ([p] + later));
            r.next == Run(Idle, [p] + later).next &&
            r.parsed == Run(s, before).parsed + Run(Idle, [p] + later).parsed
  {
    var mid := Run(s, before).next;
    KnownNotEmpty();
    assert Defined(mid, p) && React(mid, p) == React(Idle, p);
    RunStep(mid, p, later);
    RunStep(Idle, p, later);
    RunConcat(s, before, [p] + later);
  }

  function WithoutEmpty(ps: seq<Text>): seq<Text> {
    if ps == [] then [] else (if ps[0] == [] then [] else [ps[0]]) + WithoutEmpty(ps[1..])
  }

  /** Empty packets may come anywhere: they change no run. */
  lemma {:induction false} EmptyIgnored(s: Rx, ps: seq<Text>)
    requires Feasible(s, ps)
    ensures Feasible(s, WithoutEmpty(ps)) && Run(s, WithoutEmpty(ps)) == Run(s, ps)
    decreases ps
  {
    if ps != [] {
      var p, rest := ps[0], ps[1..];
      assert [p] + rest == ps;
      RunStep(s, p, rest);
      EmptyIgnored(React(s, p).next, rest);
      if p == [] {
        assert [] + WithoutEmpty(rest) == WithoutEmpty(rest);
      } else {
        RunStep(s, p, WithoutEmpty(rest));
      }
    }
  }

  /** Overflow: a command longer than the buffer is never parsed, and the receiver is idle after it,
      so everything up to the next 0x10 packet is dropped too. */
  lemma OverflowDropped(s: Rx, ps: seq<Text>, c: Text, later: seq<Text>)
    requires Split(ps, c) && Quiet(ps) && Defined(s, ps[0]) && |c| > 1000
    requires NonEmpty(later) && NoStart(later)
    ensures Feasible(s, ps + later) && Run(s, ps + later) == Reaction(Idle, [])
  {
    Delivery(s, ps, c);
    IdleDrops(later);
    RunConcat(s, ps, later);
  }
}
