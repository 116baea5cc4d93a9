/** st_parse.cpp: setTime(<seconds>) ... setTimeZone(<hours>) sets the clock and the TZ variable. */
module StParse {
  import opened Ascii
  import opened Bytes
  import opened Wrappers

  // int and long of the 32-bit target
  const INT_MIN: int := -0x8000_0000
  const INT_MAX: int := 0x7FFF_FFFF
  const LONG_MIN := INT_MIN
  const LONG_MAX := INT_MAX

  // Decimal numbers

  predicate IsDigit(c: Byte) {
    ZERO <= c <= ZERO + 9
  }

  /** The length of the longest prefix of digits. */
  function DigitRun(t: Text): (n: nat)
    ensures n <= |t| && (forall i :: 0 <= i < n ==> IsDigit(t[i])) && (n < |t| ==> !IsDigit(t[n]))
  {
    if t == [] || !IsDigit(t[0]) then 0 else 1 + DigitRun(t[1..])
  }

  function NatValue(digits: Text): nat
    requires forall i :: 0 <= i < |digits| ==> IsDigit(digits[i])
  {
    if digits == [] then 0
    else
      assert IsDigit(digits[|digits| - 1]);
      NatValue(digits[..|digits| - 1]) * 10 + (digits[|digits| - 1] - ZERO)
  }

  datatype Number = Invalid | OutOfRange | Parsed(value: int)

  /** std::from_chars in base 10: an optional minus and the longest run of digits. */
  function FromChars(t: Text, min: int, max: int): Number {
    var negative := t != [] && t[0] == MINUS;
    var digits := if negative then t[1..] else t;
    var n := DigitRun(digits);
    if n == 0 then Invalid
    else
      var v: int := NatValue(digits[..n]);
      var w := if negative then -v else v;
      if min <= w <= max then Parsed(w) else OutOfRange
  }

  function Decimal(n: nat): (t: Text)
    ensures t != [] && forall i :: 0 <= i < |t| ==> IsDigit(t[i])
  {
    if n < 10 then [ZERO + n] else Decimal(n / 10) + [ZERO + n % 10]
  }

  function Signed(n: int): Text {
    if n < 0 then [MINUS] + Decimal(-n) else Decimal(n)
  }

  lemma {:induction false} DecimalValue(n: nat)
    ensures NatValue(Decimal(n)) == n
  {
    if n >= 10 {
      DecimalValue(n / 10);
      var t := Decimal(n);
      assert t[..|t| - 1] == Decimal(n / 10);
    }
  }

  predicate NoDigitFirst(t: Text) {
    t == [] || !IsDigit(t[0])
  }

  lemma {:induction false} DigitRunIs(digits: Text, rest: Text)
    requires forall i :: 0 <= i < |digits| ==> IsDigit(digits[i])
    requires NoDigitFirst(rest)
    ensures DigitRun(digits + rest) == |digits|
  {
    assert forall i :: 0 <= i < |digits| ==> (digits + rest)[i] == digits[i];
    assert rest != [] ==> (digits + rest)[|digits|] == rest[0];
  }

  /** Printing and reading a number, whatever non-digit text comes after it. */
  lemma FromCharsSigned(n: int, rest: Text, min: int, max: int)
    requires min <= n <= max && NoDigitFirst(rest)
    ensures FromChars(Signed(n) + rest, min, max) == Parsed(n)
  {
    hide FromChars, Decimal;
    SpellSigned(n);
    FromCharsSpelled(SignedNumeral(n), rest, min, max);
  }

  // Every text that starts with a number

  /** A number as it may be written: a minus or none, leading zeros, and the printed magnitude. */
  datatype Numeral = Numeral(negative: bool, zeros: nat, magnitude: nat)

  function Spell(x: Numeral): Text {
    (if x.negative then [MINUS] else []) + (Fill(ZERO, x.zeros) + Decimal(x.magnitude))
  }

  function Meant(x: Numeral): int {
    var n: int := x.magnitude;
    if x.negative then -n else n
  }

  function SignedNumeral(n: int): (x: Numeral)
    ensures Meant(x) == n
  {
    Numeral(n < 0, 0, if n < 0 then -n else n)
  }

  lemma SpellSigned(n: int)
    ensures Spell(SignedNumeral(n)) == Signed(n)
  {
    hide Decimal;
  }

  predicate NumberFirst(t: Text) {
    t != [] && (IsDigit(t[0]) || (t[0] == MINUS && |t| > 1 && IsDigit(t[1])))
  }

  lemma {:induction false} LeadingZeros(zeros: nat, digits: Text)
    requires forall i :: 0 <= i < |digits| ==> IsDigit(digits[i])
    ensures forall i :: 0 <= i < zeros + |digits| ==> IsDigit((Fill(ZERO, zeros) + digits)[i])
    ensures NatValue(Fill(ZERO, zeros) + digits) == NatValue(digits)
    decreases zeros + |digits|
  {
    hide Fill;
    var t := Fill(ZERO, zeros) + digits;
    if digits != [] {
      var n := |digits| - 1;
      LeadingZeros(zeros, digits[..n]);
      assert t[..|t| - 1] == Fill(ZERO, zeros) + digits[..n] && t[|t| - 1] == digits[n];
    } else if zeros > 0 {
      LeadingZeros(zeros - 1, []);
      assert t[..|t| - 1] == Fill(ZERO, zeros - 1) + [];
    }
  }

  /** Any digits are the printed form of their value behind zeros. */
  lemma {:induction false} ZeroPadded(digits: Text) returns (zeros: nat)
    requires digits != [] && forall i :: 0 <= i < |digits| ==> IsDigit(digits[i])
    ensures digits == Fill(ZERO, zeros) + Decimal(NatValue(digits))
  {
    var n := |digits| - 1;
    var front, last := digits[..n], digits[n];
    assert digits == front + [last];
    if front == [] {
      zeros := 0;
    } else {
      zeros := ZeroPadded(front);
      if NatValue(front) == 0 {
        zeros := zeros + 1;
        assert Decimal(0) == [ZERO];
      }
    }
  }

  /** A number is read as meant, leading zeros or none, or found out of range. */
  lemma FromCharsSpelled(x: Numeral, rest: Text, min: int, max: int)
    requires NoDigitFirst(rest)
    ensures FromChars(Spell(x) + rest, min, max) == if min <= Meant(x) <= max then Parsed(Meant(x)) else OutOfRange
  {
    hide DigitRun, NatValue, Decimal;
    var digits := Fill(ZERO, x.zeros) + Decimal(x.magnitude);
    LeadingZeros(x.zeros, Decimal(x.magnitude));
    DecimalValue(x.magnitude);
    DigitRunIs(digits, rest);
    var t := Spell(x) + rest;
    if x.negative {
      assert t[0] == MINUS && t[1..] == digits + rest;
    } else {
      assert t == digits + rest;
      assert t[0] == digits[0];
    }
    assert (digits + rest)[..|digits|] == digits;
  }

  /** Nothing else is a number. */
  lemma FromCharsInvalid(t: Text, min: int, max: int)
    ensures FromChars(t, min, max) == Invalid <==> !NumberFirst(t)
  {
    hide NatValue;
  }

  lemma DigitsFirst(t: Text) returns (zeros: nat, n: nat, rest: Text)
    requires t != [] && IsDigit(t[0])
    ensures t == Fill(ZERO, zeros) + Decimal(n) + rest && NoDigitFirst(rest)
  {
    hide NatValue, Decimal, DigitRun, Fill;
    var run := t[..DigitRun(t)];
    rest := t[DigitRun(t)..];
    n := NatValue(run);
    zeros := ZeroPadded(run);
    assert t == run + rest;
  }

  /** Every text that starts with a number is a numeral and text that does not continue it. */
  lemma Numerals(t: Text) returns (x: Numeral, rest: Text)
    requires NumberFirst(t)
    ensures t == Spell(x) + rest && NoDigitFirst(rest)
  {
    hide Decimal, Fill, NoDigitFirst;
    var negative := t[0] == MINUS;
    var zeros, n: nat;
    zeros, n, rest := DigitsFirst(if negative then t[1..] else t);
    x := Numeral(negative, zeros, n);
    if negative {
      assert t == [MINUS] + t[1..];
    }
  }

  // The command

  /** sv.substr(sv.find(name) + size): without the name, npos wraps to size - 1, and substr
      throws if that lies behind the end. */
  function After(t: Text, name: Text): (r: Option<Text>)
    requires name != []
  {
    match Find(t, name)
    case Some(i) => Some(t[i + |name|..])
    case None => if |name| - 1 <= |t| then Some(t[|name| - 1..]) else None
  }

  /** sv.substr(0, sv.find(')')). */
  function Argument(t: Text): Text {
    match FindByte(t, CLOSE)
    case Some(end) => t[..end]
    case None => t
  }

  /** What a setTime command asks for. Fault: substr throws, from_chars leaves its result unset
      because the number is out of range, or INT_MIN is negated. */
  datatype Request = Ignored | ClockOnly(seconds: int) | ClockAndZone(seconds: int, hours: int) | Fault

  function ReadRequest(t: Text): Request {
    match After(t, SET_TIME)
    case None => Fault
    case Some(sv) =>
      match FromChars(Argument(sv), LONG_MIN, LONG_MAX)
      case Invalid => Ignored
      case OutOfRange => Fault
      case Parsed(seconds) => OffsetOf(seconds, After(sv, SET_TIME_ZONE))
  }

  function OffsetOf(seconds: int, zone: Option<Text>): Request {
    match zone
    case None => Fault
    case Some(text) =>
      match FromChars(Argument(text), INT_MIN, INT_MAX)
      case Invalid => ClockOnly(seconds)
      case OutOfRange => Fault
      case Parsed(hours) => if hours == INT_MIN then Fault else ClockAndZone(seconds, hours)
  }

  lemma SpellBytes(x: Numeral)
    ensures Spell(x) != [] && forall c :: c in Spell(x) ==> c == MINUS || IsDigit(c)
  {
    hide Decimal;
  }

  /** The argument of a call starts with its number, up to the first ')' at the latest. */
  lemma ArgumentSpelled(x: Numeral, rest: Text, min: int, max: int)
    requires NoDigitFirst(rest)
    ensures FromChars(Argument(Spell(x) + rest), min, max) ==
      if min <= Meant(x) <= max then Parsed(Meant(x)) else OutOfRange
  {
    hide Spell, FromChars;
    var t := Spell(x) + rest;
    SpellBytes(x);
    assert forall i :: 0 <= i < |Spell(x)| ==> t[i] == Spell(x)[i] && Spell(x)[i] in Spell(x);
    match FindByte(t, CLOSE)
    case None =>
      FromCharsSpelled(x, rest, min, max);
    case Some(end) =>
      assert end >= |Spell(x)|;
      var cut := rest[..end - |Spell(x)|];
      assert t[..end] == Spell(x) + cut;
      FromCharsSpelled(x, cut, min, max);
  }

  lemma ArgumentInvalid(t: Text, min: int, max: int)
    ensures FromChars(Argument(t), min, max) == Invalid <==> !NumberFirst(t)
  {
    hide FromChars;
    FromCharsInvalid(Argument(t), min, max);
  }

  // What a command asks for, by its text

  /** The command asks for nothing exactly when no number comes first. */
  lemma SecondsMissing(rest: Text)
    ensures ReadRequest(SET_TIME + rest) == Ignored <==> !NumberFirst(rest)
  {
    hide FromChars, Argument, After, NumberFirst;
    AfterFirst(rest);
    ArgumentInvalid(rest, LONG_MIN, LONG_MAX);
  }

  lemma AfterFirst(rest: Text)
    ensures After(SET_TIME + rest, SET_TIME) == Some(rest)
  {
    NotInNothing(SET_TIME);
    AfterName([], SET_TIME, rest);
    assert [] + (SET_TIME + rest) == SET_TIME + rest;
  }

  /** Seconds out of range are undefined behaviour; others are read, and the offset decides the rest. */
  lemma SecondsRead(x: Numeral, after: Text)
    requires NoDigitFirst(after)
    ensures ReadRequest(SET_TIME + (Spell(x) + after)) ==
      if LONG_MIN <= Meant(x) <= LONG_MAX then OffsetOf(Meant(x), After(Spell(x) + after, SET_TIME_ZONE)) else Fault
  {
    hide FromChars, Argument, After, Spell, OffsetOf;
    AfterFirst(Spell(x) + after);
    ArgumentSpelled(x, after, LONG_MIN, LONG_MAX);
  }

  /** The rest of the command behind setTimeZone(. */
  lemma ZoneFound(x: Numeral, between: Text, zone: Text)
    requires NoDigitFirst(between) && !Contains(between, SET_TIME_ZONE)
    ensures After(Spell(x) + (between + (SET_TIME_ZONE + zone)), SET_TIME_ZONE) == Some(zone)
  {
    hide Spell, After, Contains;
    SpellBytes(x);
    ContainsAfter(Spell(x), between, SET_TIME_ZONE);
    AfterName(Spell(x) + between, SET_TIME_ZONE, zone);
    assert Spell(x) + (between + (SET_TIME_ZONE + zone)) == Spell(x) + between + (SET_TIME_ZONE + zone);
  }

  /** Behind setTimeZone( without a number the clock alone is asked for. */
  lemma OffsetMissing(x: Numeral, between: Text, zone: Text)
    requires NoDigitFirst(between) && !Contains(between, SET_TIME_ZONE) && LONG_MIN <= Meant(x) <= LONG_MAX
    ensures ReadRequest(SET_TIME + (Spell(x) + (between + (SET_TIME_ZONE + zone)))) == ClockOnly(Meant(x)) <==>
      !NumberFirst(zone)
  {
    hide FromChars, Argument, ReadRequest, After, Spell, Contains, NumberFirst;
    FirstByte(between, zone);
    SecondsRead(x, between + (SET_TIME_ZONE + zone));
    ZoneFound(x, between, zone);
    ArgumentInvalid(zone, INT_MIN, INT_MAX);
  }

  /** Both numbers are read as meant, with or without leading zeros. */
  lemma BothRead(x: Numeral, between: Text, z: Numeral, rest: Text)
    requires LONG_MIN <= Meant(x) <= LONG_MAX && INT_MIN < Meant(z) <= INT_MAX
    requires NoDigitFirst(between) && !Contains(between, SET_TIME_ZONE)
    requires NoDigitFirst(rest)
    ensures ReadRequest(SET_TIME + (Spell(x) + (between + (SET_TIME_ZONE + (Spell(z) + rest))))) ==
      ClockAndZone(Meant(x), Meant(z))
  {
    hide FromChars, Argument, ReadRequest, After, Spell, Contains, NoDigitFirst;
    FirstByte(between, Spell(z) + rest);
    SecondsRead(x, between + (SET_TIME_ZONE + (Spell(z) + rest)));
    ZoneFound(x, between, Spell(z) + rest);
    ArgumentSpelled(z, rest, INT_MIN, INT_MAX);
  }

  /** Without setTimeZone( the search's npos has the offset read from byte 11 of what stands behind setTime(;
      a shorter text throws. */
  lemma NameMissing(x: Numeral, after: Text)
    requires NoDigitFirst(after) && !Contains(after, SET_TIME_ZONE) && LONG_MIN <= Meant(x) <= LONG_MAX
    ensures var sv := Spell(x) + after;
            && (|sv| < 11 ==> ReadRequest(SET_TIME + sv) == Fault)
            && (|sv| >= 11 ==> (ReadRequest(SET_TIME + sv) == ClockOnly(Meant(x)) <==> !NumberFirst(sv[11..])))
  {
    hide FromChars, Argument, ReadRequest, Spell, Contains, NumberFirst, NoDigitFirst;
    var sv := Spell(x) + after;
    SpellBytes(x);
    ContainsAfter(Spell(x), after, SET_TIME_ZONE);
    SecondsRead(x, after);
    if |sv| >= 11 {
      ArgumentInvalid(sv[11..], INT_MIN, INT_MAX);
    }
  }

  lemma OffsetAtByte11(x: Numeral, after: Text, z: Numeral, rest: Text)
    requires NoDigitFirst(after) && !Contains(after, SET_TIME_ZONE) && LONG_MIN <= Meant(x) <= LONG_MAX
    requires INT_MIN < Meant(z) <= INT_MAX && NoDigitFirst(rest)
    requires |Spell(x) + after| >= 11 && (Spell(x) + after)[11..] == Spell(z) + rest
    ensures ReadRequest(SET_TIME + (Spell(x) + after)) == ClockAndZone(Meant(x), Meant(z))
  {
    hide FromChars, Argument, ReadRequest, Spell, Contains, NoDigitFirst;
    SpellBytes(x);
    ContainsAfter(Spell(x), after, SET_TIME_ZONE);
    SecondsRead(x, after);
    ArgumentSpelled(z, rest, INT_MIN, INT_MAX);
  }

  /** A ten-digit time in a command of its own sets only the clock. */
  lemma TenDigits(seconds: int)
    requires 1_000_000_000 <= seconds <= LONG_MAX
    ensures ReadRequest(SET_TIME + (Signed(seconds) + [CLOSE])) == ClockOnly(seconds)
  {
    hide ReadRequest, Decimal;
    DecimalLength(seconds, 9);
    SpellSigned(seconds);
    NotInNothing(SET_TIME_ZONE);
    ContainsAfter([CLOSE], [], SET_TIME_ZONE);
    assert [CLOSE] + [] == [CLOSE];
    NameMissing(SignedNumeral(seconds), [CLOSE]);
  }

  function Power10(k: nat): nat {
    if k == 0 then 1 else 10 * Power10(k - 1)
  }

  lemma {:induction false} DecimalLength(n: nat, k: nat)
    requires Power10(k) <= n < Power10(k + 1)
    ensures |Decimal(n)| == k + 1
  {
    if k > 0 {
      DecimalLength(n / 10, k - 1);
    }
  }

  /** Round trip: the printed seconds and offset are read back, whatever text without
      setTimeZone( stands between them; a fraction after the offset is cut off. */
  lemma SetTimeRoundTrip(seconds: int, between: Text, hours: int, rest: Text)
    requires LONG_MIN <= seconds <= LONG_MAX && INT_MIN < hours <= INT_MAX
    requires NoDigitFirst(between) && !Contains(between, SET_TIME_ZONE)
    requires NoDigitFirst(rest)
    ensures ReadRequest(SET_TIME + Signed(seconds) + between + SET_TIME_ZONE + Signed(hours) + rest)
         == ClockAndZone(seconds, hours)
  {
    hide ReadRequest, Signed, Spell, Contains, NoDigitFirst;
    SpellSigned(seconds);
    SpellSigned(hours);
    BothRead(SignedNumeral(seconds), between, SignedNumeral(hours), rest);
    assert SET_TIME + Signed(seconds) + between + SET_TIME_ZONE + Signed(hours) + rest ==
           SET_TIME + (Signed(seconds) + (between + (SET_TIME_ZONE + (Signed(hours) + rest))));
  }

  lemma AfterName(front: Text, name: Text, rest: Text)
    requires name != [] && !Contains(front, name) && forall k :: 0 < k < |name| ==> name[k] != name[0]
    ensures After(front + (name + rest), name) == Some(rest)
  {
    FirstOccurrence(front, name + rest, name);
    assert (front + (name + rest))[|front| + |name|..] == rest;
  }

  lemma FirstByte(a: Text, zone: Text)
    requires NoDigitFirst(a)
    ensures NoDigitFirst(a + (SET_TIME_ZONE + zone))
  {
  }

  // The TZ variable

  /** The remainder of C++: it has the sign of the dividend. */
  function TruncRem(a: int, b: nat): int
    requires b > 0
  {
    if a >= 0 then a % b else -(-a % b)
  }

  /** printf's %+03d: a sign and at least two digits. */
  function PlusPadded(v: int): Text {
    var digits := Decimal(if v < 0 then -v else v);
    [if v < 0 then MINUS else PLUS] + (if |digits| < 2 then [ZERO] else []) + digits
  }

  /** "UTC%+03d" of -hours % 100. */
  function ZoneText(hours: int): Text {
    UTC + PlusPadded(TruncRem(-hours, 100))
  }

  /** The hours west of UTC that a TZ value of the form UTC[+-]hh stands for under section 8.3 of the
      Base Definitions of IEEE Std 1003.1-2017: a plus lies west, and hours go up to 24. */
  function HoursWest(tz: Text): Option<int> {
    if |tz| == 6 && tz[..3] == UTC && (tz[3] == PLUS || tz[3] == MINUS) && IsDigit(tz[4]) && IsDigit(tz[5]) then
      var hours := (tz[4] - ZERO) * 10 + (tz[5] - ZERO);
      if hours <= 24 then Some(if tz[3] == PLUS then hours else -hours) else None
    else None
  }

  /** The zone text is UTC, a sign and two digits: with its terminator it fits the seven bytes it is
      printed into. */
  lemma ZoneTextLayout(hours: int)
    ensures |ZoneText(hours)| == 6 && ZoneText(hours)[..3] == UTC
    ensures var v := if hours < 0 then -hours % 100 else hours % 100;
            ZoneText(hours)[3..] == [if hours > 0 && v > 0 then MINUS else PLUS, ZERO + v / 10, ZERO + v % 10]
  {
    var r := TruncRem(-hours, 100);
    var v := if r < 0 then -r else r;
    assert v < 100;
    if v >= 10 {
      assert Decimal(v) == Decimal(v / 10) + [ZERO + v % 10] == [ZERO + v / 10, ZERO + v % 10];
    }
    assert PlusPadded(r) == [if r < 0 then MINUS else PLUS, ZERO + v / 10, ZERO + v % 10];
  }

  /** Local time is UTC plus the given hours exactly for the offsets a TZ value can express. */
  lemma ZoneMeaning(hours: int)
    ensures HoursWest(ZoneText(hours)) == Some(-hours) <==> -24 <= hours <= 24
  {
    hide ZoneText, HoursWest;
    ZoneTextLayout(hours);
    var v := if hours < 0 then -hours % 100 else hours % 100;
    HoursWestOf(ZoneText(hours), !(hours > 0 && v > 0), v);
  }

  lemma HoursWestOf(tz: Text, west: bool, v: nat)
    requires |tz| == 6 && tz[..3] == UTC && v < 100
    requires tz[3..] == [if west then PLUS else MINUS, ZERO + v / 10, ZERO + v % 10]
    ensures HoursWest(tz) == if v > 24 then None else Some(if west then v else -(v as int))
  {
    assert tz[3] == tz[3..][0] && tz[4] == tz[3..][1] && tz[5] == tz[3..][2];
  }

  // The code

  /** The realtime clock and the environment variable TZ. */
  class SystemTime {
    var clock: Option<int>
    var tz: Option<Text>

    constructor ()
      ensures clock == None && tz == None
    {
      clock, tz := None, None;
    }
  }

  /** snprintf: as much of the text as fits before the terminator. */
  method Snprintf(buf: array<Byte>, text: Text)
    requires buf.Length > 0
    modifies buf
    ensures var n := if |text| < buf.Length then |text| else buf.Length - 1;
            buf[..n + 1] == text[..n] + [0]
  {
    var n := if |text| < buf.Length then |text| else buf.Length - 1;
    forall i | 0 <= i < n {
      buf[i] := text[i];
    }
    buf[n] := 0;
  }

  /** The C string at the start of a buffer. */
  function CString(t: Text): Text {
    match FindByte(t, 0)
    case Some(n) => t[..n]
    case None => t
  }

  method Parse(sys: SystemTime, text: Text)
    requires SET_TIME <= text && ReadRequest(text) != Fault
    modifies sys
    ensures match ReadRequest(text)
            case Ignored => unchanged(sys)
            case ClockOnly(seconds) => sys.clock == Some(seconds) && sys.tz == old(sys.tz)
            case ClockAndZone(seconds, hours) => sys.clock == Some(seconds) && sys.tz == Some(ZoneText(hours))
            case Fault => true
    ensures !NumberFirst(text[8..]) ==> unchanged(sys)
    ensures forall x, after :: text[8..] == Spell(x) + after && NoDigitFirst(after) ==> sys.clock == Some(Meant(x))
  {
    hide FromChars, ZoneText, CString, After, Spell, Meant, NumberFirst, NoDigitFirst;
    TextRead(text);
    var sv := After(text, SET_TIME).value;
    var end := FindByte(sv, CLOSE);
    var secondsStr := if end.Some? then sv[..end.value] else sv;
    var result := FromChars(secondsStr, LONG_MIN, LONG_MAX);
    if result == Invalid {
      return;
    }
    sys.clock := Some(result.value);

    sv := After(sv, SET_TIME_ZONE).value;
    end := FindByte(sv, CLOSE);
    var tzOffsetStr := if end.Some? then sv[..end.value] else sv;
    result := FromChars(tzOffsetStr, INT_MIN, INT_MAX);
    if result == Invalid {
      return;
    }
    var tzOffset := result.value;
    var tzBuf := new Byte[7];
    Snprintf(tzBuf, ZoneText(tzOffset));
    ZoneTextLayout(tzOffset);
    sys.tz := Some(CString(tzBuf[..]));
    CStringIs(tzBuf[..], ZoneText(tzOffset));
  }

  predicate SetsClock(r: Request, seconds: int) {
    r == ClockOnly(seconds) || (r.ClockAndZone? && r.seconds == seconds)
  }

  lemma TextRead(text: Text)
    requires SET_TIME <= text && ReadRequest(text) != Fault
    ensures !NumberFirst(text[8..]) ==> ReadRequest(text) == Ignored
    ensures forall x, after :: text[8..] == Spell(x) + after && NoDigitFirst(after) ==>
                                 SetsClock(ReadRequest(text), Meant(x))
  {
    hide Spell, Meant, NumberFirst, NoDigitFirst, After, ReadRequest;
    assert text == SET_TIME + text[8..];
    SecondsMissing(text[8..]);
    forall x, after | text[8..] == Spell(x) + after && NoDigitFirst(after)
      ensures SetsClock(ReadRequest(text), Meant(x))
    {
      SecondsRead(x, after);
    }
  }

  lemma CStringIs(t: Text, s: Text)
    requires |s| < |t| && t[..|s| + 1] == s + [0] && 0 !in s
    ensures CString(t) == s
  {
    assert forall i :: 0 <= i <= |s| ==> t[i] == t[..|s| + 1][i] == (s + [0])[i];
    assert t[..|s|] == s;
    assert t[|s|] == 0 && forall i :: 0 <= i < |s| ==> t[i] == s[i] != 0;
  }
}
