/** From BLE packets to the JSON parser and the clock: the receiver object under a whole run of
    packets, and what arrives at the far end of the pipeline. */
module Pipeline {
  import opened Ascii
  import opened AtobRewrite
  import opened Bytes
  import opened Wrappers
  import opened Framing
  import opened Gadgetbridge
  import opened Messages
  import StParse

  /** The UART service hands every packet it receives to the receiver. */
  method Receive(r: Receiver, packets: seq<Text>)
    requires r.Valid() && Feasible(r.View(), packets)
    requires AllSafe(Run(r.View(), packets).parsed)
    modifies r, r.recvBuf, r.sys
    ensures r.Valid()
    ensures r.View() == Run(old(r.View()), packets).next
    ensures r.parsed == old(r.parsed) + Run(old(r.View()), packets).parsed
    ensures r.Effects() == PerformAll(old(r.Effects()), Run(old(r.View()), packets).parsed)
    ensures OneTextEach(old(r.json), GbCommands(r.parsed[|old(r.parsed)|..]), r.json)
    ensures WithoutTime(r.parsed[|old(r.parsed)|..]) ==>
      r.sys.clock == old(r.sys.clock) && r.sys.tz == old(r.sys.tz)
  {
    hide React, Perform, Safe, Defined, Run, Feasible, OneTextEach, WithoutTime;
    ghost var start := r.View();
    ghost var done: seq<Text> := [];
    assert [] + packets == packets && packets[0..] == packets;
    RunNothing(start);
    for i := 0 to |packets|
      invariant r.Valid()
      invariant done == packets[..i]
      invariant Feasible(start, done) && Feasible(r.View(), packets[i..])
      invariant r.View() == Run(start, done).next
      invariant AllSafe(Run(start, done).parsed)
      invariant AllSafe(Run(r.View(), packets[i..]).parsed)
      invariant r.parsed == old(r.parsed) + Run(start, done).parsed
      invariant r.Effects() == PerformAll(old(r.Effects()), Run(start, done).parsed)
    {
      ghost var s, p, rest := r.View(), packets[i], packets[i + 1..];
      assert packets[i..] == [p] + rest;
      FirstDefined(s, p, rest);
      RunStep(s, p, rest);
      RunOne(s, p);
      RunConcat(start, done, [p]);
      PerformConcat(old(r.Effects()), Run(start, done).parsed, React(s, p).parsed);
      r.Consume(packets[i]);
      done := done + [p];
    }
    assert done == packets;
    PerformAllKinds(old(r.Effects()), Run(start, packets).parsed);
    assert r.parsed[|old(r.parsed)|..] == Run(start, packets).parsed;
  }

  lemma RunNothing(s: Rx)
    ensures Feasible(s, []) && Run(s, []) == Reaction(s, [])
  {
  }

  lemma FirstDefined(s: Rx, p: Text, rest: seq<Text>)
    requires Feasible(s, [p] + rest)
    ensures Defined(s, p)
  {
  }

  lemma {:induction false} PerformConcat(w: World, c: seq<Text>, d: seq<Text>)
    requires AllSafe(c) && AllSafe(d)
    ensures AllSafe(c + d) && PerformAll(w, c + d) == PerformAll(PerformAll(w, c), d)
    decreases c
  {
    hide Perform, Safe;
    if c == [] {
      assert c + d == d;
    } else {
      assert (c + d)[1..] == c[1..] + d;
      PerformConcat(Perform(w, c[0]), c[1..], d);
    }
  }

  // End to end

  /** GB(text) */
  function GbCommand(text: Text): Text {
    GB_OPEN + text + [CLOSE]
  }

  /** A JSON text whose calls are well formed reaches the JSON parser with each call replaced by its
      payload in a single pass, exactly when that creates no atob(". The last byte is dropped without a look. */
  lemma GbCommandEffect(w: World, json: Text, last: Byte)
    requires Substitute(json).Some?
    ensures Safe(GB_OPEN + json + [last]) &&
            Perform(w, GB_OPEN + json + [last]) == w.(json := w.json + [Substitute(json).value])
       <==> !Contains(Substitute(json).value, ATOB)
  {
    hide Substitute;
    GbCommandPerformed(w, json, last);
    RewriteIsSubstitute(json);
    assert forall x: Text :: (w.json + [x])[|w.json|] == x;
  }

  /** What a phone asks for: a JSON message, or the time (with any text that does not stand in the way
      between the two calls, and any text after the offset). */
  datatype Order =
    | Json(message: Message)
    | Time(seconds: int, between: Text, hours: int, rest: Text)

  function CommandText(o: Order): Text {
    match o
    case Json(m) => GbCommand(Render(m))
    case Time(seconds, between, hours, rest) =>
      SET_TIME + StParse.Signed(seconds) + between + SET_TIME_ZONE + StParse.Signed(hours) + rest
  }

  /** A clean message, or numbers in range behind texts that do not interfere with reading them. */
  ghost predicate Proper(o: Order) {
    match o
    case Json(m) => PlainParts(m) && Clean(m)
    case Time(seconds, between, hours, rest) =>
      && StParse.LONG_MIN <= seconds <= StParse.LONG_MAX && StParse.INT_MIN < hours <= StParse.INT_MAX
      && StParse.NoDigitFirst(between) && !Contains(between, SET_TIME_ZONE) && StParse.NoDigitFirst(rest)
  }

  /** The messages as they are meant. */
  function Texts(os: seq<Order>): seq<Text> {
    if os == [] then [] else (if os[0].Json? then [Show(os[0].message)] else []) + Texts(os[1..])
  }

  /** The last time asked for, or the clock as it was. */
  function LastSeconds(clock: Option<int>, os: seq<Order>): Option<int>
    decreases os
  {
    if os == [] then clock
    else LastSeconds(if os[0].Time? then Some(os[0].seconds) else clock, os[1..])
  }

  function LastZone(tz: Option<Text>, os: seq<Order>): Option<Text>
    decreases os
  {
    if os == [] then tz
    else LastZone(if os[0].Time? then Some(StParse.ZoneText(os[0].hours)) else tz, os[1..])
  }

  /** From any receiver state, a stream of orders that fit the buffer, messages and times in any mixture, cut
      into packets in any admissible way, gives the JSON parser each message as it is meant, in order and
      nothing else, and leaves the clock and the zone as last asked for. */
  lemma StreamEndToEnd(s: Rx, w: World, os: seq<Order>, fs: seq<Frame>)
    requires |os| == |fs|
    requires forall k :: 0 <= k < |os| ==> Proper(os[k]) && fs[k].command == CommandText(os[k])
    requires forall k :: 0 <= k < |fs| ==> Admissible(fs[k])
    ensures Feasible(s, Packets(fs)) && AllSafe(Run(s, Packets(fs)).parsed)
    ensures PerformAll(w, Run(s, Packets(fs)).parsed) ==
      World(w.json + Texts(os), LastSeconds(w.clock, os), LastZone(w.tz, os))
  {
    StreamDelivery(s, fs);
    CommandsEffect(w, os, fs);
  }

  /** One order. */
  lemma OrderEffect(w: World, o: Order)
    requires Proper(o)
    ensures Safe(CommandText(o)) && Perform(w, CommandText(o)) ==
      if o.Json? then w.(json := w.json + [Show(o.message)])
      else w.(clock := Some(o.seconds), tz := Some(StParse.ZoneText(o.hours)))
  {
    hide StParse.ReadRequest, StParse.Signed, StParse.ZoneText, StParse.NoDigitFirst;
    hide Show, Render, Clean, PlainParts, Substitute, Contains;
    match o
    case Json(m) =>
      SubstituteMessage(m);
      ShowIsClean(m);
      GbCommandEffect(w, Render(m), CLOSE);
    case Time(seconds, between, hours, rest) =>
      StParse.SetTimeRoundTrip(seconds, between, hours, rest);
      SetTimePrefix(CommandText(o));
  }

  lemma {:induction false} CommandsEffect(w: World, os: seq<Order>, fs: seq<Frame>)
    requires |os| == |fs|
    requires forall k :: 0 <= k < |os| ==> Proper(os[k]) && fs[k].command == CommandText(os[k])
    ensures AllSafe(Commands(fs))
    ensures PerformAll(w, Commands(fs)) ==
      World(w.json + Texts(os), LastSeconds(w.clock, os), LastZone(w.tz, os))
    decreases os
  {
    hide Perform, Safe, CommandText, Proper, Show;
    if os == [] {
      assert w.json + [] == w.json;
    } else {
      var o, c := os[0], fs[0].command;
      OrderEffect(w, o);
      CommandsEffect(Perform(w, c), os[1..], fs[1..]);
      assert Commands(fs) == [c] + Commands(fs[1..]);
      assert ([c] + Commands(fs[1..]))[1..] == Commands(fs[1..]);
      var own := if o.Json? then [Show(o.message)] else [];
      assert w.json + own + Texts(os[1..]) == w.json + (own + Texts(os[1..]));
      assert w.json + [] == w.json;
    }
  }

  /** One command around any JSON text with well-formed calls, from any receiver state that takes it up,
      however it is cut: the JSON parser gets the single-pass substitution exactly when that is free of atob(". */
  lemma EndToEnd(s: Rx, w: World, json: Text, ps: seq<Text>)
    requires Substitute(json).Some? && |json| <= 996
    requires Split(ps, GbCommand(json)) && Quiet(ps) && Defined(s, ps[0]) && Opens(s, ps[0])
    ensures Feasible(s, ps)
    ensures AllSafe(Run(s, ps).parsed) &&
            PerformAll(w, Run(s, ps).parsed) == w.(json := w.json + [Substitute(json).value])
       <==> !Contains(Substitute(json).value, ATOB)
  {
    hide Substitute, Contains, Perform, Safe;
    var c := GbCommand(json);
    Delivery(s, ps, c);
    GbCommandEffect(w, json, CLOSE);
    PerformOne(w, c);
    assert c in [c];
  }

  /** From any state, setTime(s) ... setTimeZone(z) sets the clock to s seconds, and for the offsets a TZ
      value can express the zone it sets is z hours ahead of UTC. */
  lemma SetTimeEndToEnd(s: Rx, w: World, seconds: int, between: Text, hours: int, rest: Text, ps: seq<Text>)
    requires StParse.LONG_MIN <= seconds <= StParse.LONG_MAX && StParse.INT_MIN < hours <= StParse.INT_MAX
    requires StParse.NoDigitFirst(between) && !Contains(between, SET_TIME_ZONE) && StParse.NoDigitFirst(rest)
    requires var c := SET_TIME + StParse.Signed(seconds) + between + SET_TIME_ZONE + StParse.Signed(hours) + rest;
             |c| <= MAX_RECV_LEN && Split(ps, c) && Quiet(ps) && Defined(s, ps[0]) && Opens(s, ps[0])
    ensures Feasible(s, ps) && AllSafe(Run(s, ps).parsed)
    ensures var after := PerformAll(w, Run(s, ps).parsed);
            && after.json == w.json && after.clock == Some(seconds) && after.tz.Some?
            && (StParse.HoursWest(after.tz.value) == Some(-hours) <==> -24 <= hours <= 24)
  {
    hide StParse.ReadRequest, StParse.Signed, StParse.ZoneText, StParse.HoursWest, StParse.NoDigitFirst;
    var c := SET_TIME + StParse.Signed(seconds) + between + SET_TIME_ZONE + StParse.Signed(hours) + rest;
    Delivery(s, ps, c);
    StParse.SetTimeRoundTrip(seconds, between, hours, rest);
    StParse.ZoneMeaning(hours);
    SetTimePrefix(c);
    PerformOne(w, c);
  }

  // Time commands that lack a number or a name

  /** The command is safe and does nothing in any world, respectively sets just the clock. */
  ghost predicate DoesNothing(c: Text) {
    Safe(c) && forall w: World :: Perform(w, c) == w
  }

  ghost predicate OnlySetsClock(c: Text, seconds: int) {
    Safe(c) && forall w: World :: Perform(w, c) == w.(clock := Some(seconds))
  }

  lemma RequestPerformed(c: Text, seconds: int)
    requires SET_TIME <= c
    ensures DoesNothing(c) <==> StParse.ReadRequest(c) == StParse.Ignored
    ensures OnlySetsClock(c, seconds) <==> StParse.ReadRequest(c) == StParse.ClockOnly(seconds)
  {
    hide StParse.ReadRequest, StParse.ZoneText;
    SetTimePrefix(c);
    if Safe(c) {
      var sample := Perform(World([], None, None), c);
    }
  }

  /** Exactly the setTime commands that start with no number do nothing. */
  lemma TimeWithoutSeconds(rest: Text)
    ensures DoesNothing(SET_TIME + rest) <==> !StParse.NumberFirst(rest)
  {
    hide DoesNothing, OnlySetsClock, StParse.ReadRequest, StParse.NumberFirst;
    StParse.SecondsMissing(rest);
    RequestPerformed(SET_TIME + rest, 0);
  }

  /** With a setTimeZone( behind which no number comes first, and only then, the clock alone is set. */
  lemma TimeWithoutOffset(seconds: StParse.Numeral, between: Text, zone: Text)
    requires StParse.LONG_MIN <= StParse.Meant(seconds) <= StParse.LONG_MAX
    requires StParse.NoDigitFirst(between) && !Contains(between, SET_TIME_ZONE)
    ensures var c := SET_TIME + (StParse.Spell(seconds) + (between + (SET_TIME_ZONE + zone)));
            OnlySetsClock(c, StParse.Meant(seconds)) <==> !StParse.NumberFirst(zone)
  {
    hide DoesNothing, OnlySetsClock, Contains;
    hide StParse.ReadRequest, StParse.NumberFirst, StParse.NoDigitFirst, StParse.Spell, StParse.Meant;
    StParse.OffsetMissing(seconds, between, zone);
    RequestPerformed(SET_TIME + (StParse.Spell(seconds) + (between + (SET_TIME_ZONE + zone))), StParse.Meant(seconds));
  }

  /** Without setTimeZone( the offset is looked for from byte 11 on, behind setTime(: the clock alone is set exactly
      where no number comes first there, and what is shorter than that throws. */
  lemma TimeWithoutZone(seconds: StParse.Numeral, after: Text)
    requires StParse.LONG_MIN <= StParse.Meant(seconds) <= StParse.LONG_MAX
    requires StParse.NoDigitFirst(after) && !Contains(after, SET_TIME_ZONE)
    ensures var sv := StParse.Spell(seconds) + after;
            && (Safe(SET_TIME + sv) ==> |sv| >= 11)
            && (|sv| >= 11 ==>
                  (OnlySetsClock(SET_TIME + sv, StParse.Meant(seconds)) <==> !StParse.NumberFirst(sv[11..])))
  {
    hide DoesNothing, OnlySetsClock, Contains;
    hide StParse.ReadRequest, StParse.NumberFirst, StParse.NoDigitFirst, StParse.Spell, StParse.Meant;
    StParse.NameMissing(seconds, after);
    RequestPerformed(SET_TIME + (StParse.Spell(seconds) + after), StParse.Meant(seconds));
    SetTimePrefix(SET_TIME + (StParse.Spell(seconds) + after));
  }

  /** setTime(s) alone, with today's ten digits, sets just the clock. */
  lemma TenDigitTime(seconds: int)
    requires 1_000_000_000 <= seconds <= StParse.LONG_MAX
    ensures OnlySetsClock(SET_TIME + (StParse.Signed(seconds) + [CLOSE]), seconds)
  {
    hide OnlySetsClock, StParse.ReadRequest, StParse.Signed;
    StParse.TenDigits(seconds);
    RequestPerformed(SET_TIME + (StParse.Signed(seconds) + [CLOSE]), seconds);
  }

  lemma SetTimePrefix(c: Text)
    requires SET_TIME <= c
    ensures !(GB_OPEN <= c)
  {
    assert c[0] == SET_TIME[0];
  }
}
