/** gadgetbridge.cpp and gb_parse.cpp on their buffer: packets are copied into it, and the text of
    a complete command is rewritten there before it goes to the JSON parser. */
module Gadgetbridge {
  import opened Ascii
  import opened Bytes
  import opened Wrappers
  import opened Framing
  import AtobRewrite
  import StParse

  // What a command does

  /** gb_parse: the text between GB( and the last byte. For the bare GB( the count size - 4 wraps
      around and the rest, which is empty, is taken. */
  function JsonText(command: Text): Text
    requires GB_OPEN <= command
  {
    if |command| == 3 then [] else command[3..|command| - 1]
  }

  /** The command keeps its parser clear of undefined behaviour: every atob call the rewriting
      loop reaches is well formed, every number is in range. */
  predicate Safe(command: Text) {
    if GB_OPEN <= command then AtobRewrite.Rewrite(JsonText(command)).Some?
    else if SET_TIME <= command then StParse.ReadRequest(command) != StParse.Fault
    else true
  }

  /** The texts given to the JSON parser so far, the clock and the TZ variable. */
  datatype World = World(json: seq<Text>, clock: Option<int>, tz: Option<Text>)

  function Perform(w: World, command: Text): World
    requires Safe(command)
  {
    if GB_OPEN <= command then w.(json := w.json + [AtobRewrite.Rewrite(JsonText(command)).value])
    else if SET_TIME <= command then
      match StParse.ReadRequest(command)
      case ClockOnly(seconds) => w.(clock := Some(seconds))
      case ClockAndZone(seconds, hours) => w.(clock := Some(seconds), tz := Some(StParse.ZoneText(hours)))
      case _ => w
    else w
  }

  predicate AllSafe(commands: seq<Text>) {
    forall d :: d in commands ==> Safe(d)
  }

  function PerformAll(w: World, commands: seq<Text>): World
    requires AllSafe(commands)
    decreases commands
  {
    if commands == [] then w else PerformAll(Perform(w, commands[0]), commands[1..])
  }

  lemma PerformOne(w: World, command: Text)
    ensures PerformAll(w, []) == w
    ensures Safe(command) ==> PerformAll(w, [command]) == Perform(w, command)
  {
    hide Perform, Safe;
    assert [command][1..] == [];
  }

  /** The JSON parser gets what the loop makes of the text between GB( and the last byte, whatever that byte is. */
  lemma GbCommandPerformed(w: World, text: Text, last: Byte)
    ensures var c := GB_OPEN + text + [last];
            && (Safe(c) <==> AtobRewrite.Rewrite(text).Some?)
            && (Safe(c) ==> Perform(w, c) == w.(json := w.json + [AtobRewrite.Rewrite(text).value]))
    ensures Safe(GB_OPEN) && Perform(w, GB_OPEN) == w.(json := w.json + [[]])
  {
    hide AtobRewrite.Rewrite;
    var c := GB_OPEN + text + [last];
    assert c[..3] == GB_OPEN && c[3..|c| - 1] == text;
    AtobRewrite.NothingToRewrite();
  }

  /** A command with neither prefix does nothing. */
  lemma UnknownCommand(w: World, command: Text)
    requires !(GB_OPEN <= command) && !(SET_TIME <= command)
    ensures AllSafe([command]) && PerformAll(w, [command]) == w
  {
    assert [command][1..] == [];
  }

  /** The commands that start with GB(. */
  function GbCommands(commands: seq<Text>): seq<Text> {
    if commands == [] then []
    else (if GB_OPEN <= commands[0] then [commands[0]] else []) + GbCommands(commands[1..])
  }

  predicate WithoutTime(commands: seq<Text>) {
    forall d :: d in commands ==> !(SET_TIME <= d)
  }

  /** `after` holds the texts of `before` and one more for each command of `gb`, in order, four bytes shorter. */
  ghost predicate OneTextEach(before: seq<Text>, gb: seq<Text>, after: seq<Text>) {
    && |after| == |before| + |gb| && before <= after
    && forall k :: 0 <= k < |gb| ==> |after[|before|..][k]| == if |gb[k]| < 4 then 0 else |gb[k]| - 4
  }

  lemma PerformKinds(w: World, command: Text)
    requires Safe(command)
    ensures OneTextEach(w.json, if GB_OPEN <= command then [command] else [], Perform(w, command).json)
    ensures !(SET_TIME <= command) ==> Perform(w, command).clock == w.clock && Perform(w, command).tz == w.tz
  {
    hide AtobRewrite.Rewrite, StParse.ReadRequest;
  }

  lemma OneTextMore(a: seq<Text>, one: seq<Text>, b: seq<Text>, more: seq<Text>, c: seq<Text>)
    requires OneTextEach(a, one, b) && OneTextEach(b, more, c)
    ensures OneTextEach(a, one + more, c)
  {
    assert c[|a|..] == b[|a|..] + c[|b|..];
  }

  /** Over any commands: the JSON parser gets exactly one text for each that starts with GB(, in order, and the
      clock and the zone stay as they are unless one starts with setTime(. */
  lemma {:induction false} PerformAllKinds(w: World, commands: seq<Text>)
    requires AllSafe(commands)
    ensures OneTextEach(w.json, GbCommands(commands), PerformAll(w, commands).json)
    ensures WithoutTime(commands) ==> PerformAll(w, commands).clock == w.clock && PerformAll(w, commands).tz == w.tz
    decreases commands
  {
    hide Perform, Safe, OneTextEach;
    if commands == [] {
      NoTextMore(w.json);
    } else {
      var d := commands[0];
      assert d in commands && forall c :: c in commands[1..] ==> c in commands;
      PerformKinds(w, d);
      PerformAllKinds(Perform(w, d), commands[1..]);
      OneTextMore(w.json, if GB_OPEN <= d then [d] else [], Perform(w, d).json,
        GbCommands(commands[1..]), PerformAll(w, commands).json);
    }
  }

  lemma NoTextMore(texts: seq<Text>)
    ensures OneTextEach(texts, [], texts)
  {
  }

  lemma KnownPrefixes(sv: Text)
    ensures Known(sv) <==> GB_OPEN <= sv || SET_TIME <= sv
  {
  }

  /** What React does with a packet, by the text behind a 0x10. */
  lemma ReactCases(s: Rx, data: Text)
    requires data != [] && Defined(s, data)
    ensures var sv := if data[0] == START then data[1..] else data;
            var body := if data[0] != START && s.Consuming? then s.body else [];
            if s.Consuming? || (data[0] == START && Known(sv)) then sv != [] && React(s, data) == Append(body, sv)
            else React(s, data) == Reaction(Idle, [])
  {
  }

  // The receiver

  datatype State = Nothing | Consume | Done

  class Receiver {
    const recvBuf: array<Byte>
    const sys: StParse.SystemTime
    var recvPos: nat
    var state: State
    ghost var parsed: seq<Text>  // the texts parse was called with
    ghost var json: seq<Text>  // the texts given to the JSON parser

    /** Between packets: the buffer is zero from the write position on. */
    ghost predicate Valid()
      reads this, recvBuf
    {
      && recvBuf.Length == MAX_RECV_LEN
      && recvPos <= MAX_RECV_LEN
      && state != Done
      && forall i :: recvPos <= i < MAX_RECV_LEN ==> recvBuf[i] == 0
    }

    ghost function View(): Rx
      reads this, recvBuf
      requires Valid()
    {
      if state.Consume? then Consuming(recvBuf[..recvPos]) else Idle
    }

    ghost function Effects(): World
      reads this, sys
    {
      World(json, sys.clock, sys.tz)
    }

    constructor ()
      ensures Valid() && View() == Idle && fresh(recvBuf) && fresh(sys)
      ensures parsed == [] && Effects() == World([], None, None)
    {
      recvBuf := new Byte[MAX_RECV_LEN](_ => 0);
      sys := new StParse.SystemTime();
      recvPos := 0;
      state := Nothing;
      parsed, json := [], [];
    }

    /** One packet: the receiver follows the protocol of Framing, every command that completes is
        parsed and takes effect, and nothing else does. */
    method Consume(data: Text)
      requires Valid() && Defined(View(), data)
      requires AllSafe(React(View(), data).parsed)
      modifies this, recvBuf, sys
      ensures Valid()
      ensures View() == React(old(View()), data).next
      ensures parsed == old(parsed) + React(old(View()), data).parsed
      ensures Effects() == PerformAll(old(Effects()), React(old(View()), data).parsed)
    {
      hide Known, Safe, Perform, PerformAll, GB_OPEN, SET_TIME;
      PerformOne(Effects(), []);
      if |data| == 0 {
        return;
      }
      ReactCases(View(), data);
      hide React;
      ghost var reaction := React(View(), data);
      var sv := data;
      if sv[0] == START {
        sv := sv[1..];
        Clear();
        KnownPrefixes(sv);
        if GB_OPEN <= sv || SET_TIME <= sv {
          state := State.Consume;
        }
      }
      if state.Consume? {
        ghost var body := recvBuf[..recvPos];
        assert reaction == Append(body, sv);
        if sv[|sv| - 1] == NEWLINE {
          sv := sv[..|sv| - 1];
          state := Done;
        }
        if recvPos + |sv| > MAX_RECV_LEN {
          state := Nothing;
        } else {
          Copy(sv);
        }
      }
      PerformOne(Effects(), recvBuf[..recvPos]);
      if state == Done {
        assert reaction.parsed == [recvBuf[..recvPos]];
        assert recvBuf[..recvPos] in reaction.parsed;
        Parse();
        state := Nothing;
      }
    }

    /** recv_buf.fill(0) and recv_pos = 0. */
    method Clear()
      requires recvBuf.Length == MAX_RECV_LEN
      modifies this`recvPos, recvBuf
      ensures recvPos == 0 && recvBuf[..recvPos] == []
      ensures forall i :: 0 <= i < MAX_RECV_LEN ==> recvBuf[i] == 0
    {
      forall i | 0 <= i < recvBuf.Length {
        recvBuf[i] := 0;
      }
      recvPos := 0;
    }

    /** std::copy of a chunk that fits behind the bytes received so far. */
    method Copy(chunk: Text)
      requires recvBuf.Length == MAX_RECV_LEN && recvPos + |chunk| <= MAX_RECV_LEN
      requires forall i :: recvPos <= i < MAX_RECV_LEN ==> recvBuf[i] == 0
      modifies this`recvPos, recvBuf
      ensures recvPos == old(recvPos) + |chunk|
      ensures recvBuf[..recvPos] == old(recvBuf[..recvPos]) + chunk
      ensures forall i :: recvPos <= i < MAX_RECV_LEN ==> recvBuf[i] == 0
    {
      forall i | 0 <= i < |chunk| {
        recvBuf[recvPos + i] := chunk[i];
      }
      recvPos := recvPos + |chunk|;
    }

    /** parse on the first recvPos bytes of the buffer. The edits of gb_parse stay inside them. */
    method Parse()
      requires recvBuf.Length == MAX_RECV_LEN && recvPos <= MAX_RECV_LEN
      requires forall i :: recvPos <= i < MAX_RECV_LEN ==> recvBuf[i] == 0
      requires Safe(recvBuf[..recvPos])
      modifies this`parsed, this`json, recvBuf, sys
      ensures forall i :: recvPos <= i < MAX_RECV_LEN ==> recvBuf[i] == 0
      ensures parsed == old(parsed) + [old(recvBuf[..recvPos])]
      ensures Effects() == Perform(old(Effects()), old(recvBuf[..recvPos]))
    {
      var sv := recvBuf[..recvPos];
      parsed := parsed + [sv];
      if GB_OPEN <= sv {
        GbParse();
      } else if SET_TIME <= sv {
        StParse.Parse(sys, sv);
      }
    }

    /** gb_parse and dump_gb up to the JSON parser. */
    method GbParse()
      requires recvBuf.Length == MAX_RECV_LEN && recvPos <= MAX_RECV_LEN
      requires GB_OPEN <= recvBuf[..recvPos] && AtobRewrite.Rewrite(JsonText(recvBuf[..recvPos])).Some?
      modifies this`json, recvBuf
      ensures forall i :: recvPos <= i < MAX_RECV_LEN ==> recvBuf[i] == old(recvBuf[i])
      ensures json == old(json) + [AtobRewrite.Rewrite(JsonText(old(recvBuf[..recvPos]))).value]
    {
      var hi := if recvPos == 3 then 3 else recvPos - 1;
      assert recvBuf[3..hi] == JsonText(recvBuf[..recvPos]);
      AtobRewrite.RewriteInPlace(recvBuf, 3, hi);
      json := json + [recvBuf[3..hi]];
    }
  }
}
