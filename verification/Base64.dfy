/** Base64 as section 4 of RFC 4648 defines it: the encoder a phone applies to a
    payload, the decoder the watch applies to it, and the decoder run with its
    output over its own input. */
module Base64 {
  import opened Bytes

  const PAD: Byte := 0x3D  // '='

  predicate IsSymbol(c: Byte) {
    0x41 <= c <= 0x5A || 0x61 <= c <= 0x7A || 0x30 <= c <= 0x39 || c == 0x2B || c == 0x2F
  }

  /** The value of an alphabet symbol: A-Z, a-z, 0-9, '+', '/'. */
  function Value(c: Byte): (v: nat)
    requires IsSymbol(c)
    ensures v < 64
  {
    if c <= 0x2B then 62
    else if c == 0x2F then 63
    else if c <= 0x39 then c - 0x30 + 52
    else if c <= 0x5A then c - 0x41
    else c - 0x61 + 26
  }

  function Symbol(v: nat): (c: Byte)
    requires v < 64
    ensures IsSymbol(c) && Value(c) == v
  {
    if v < 26 then 0x41 + v
    else if v < 52 then 0x61 + (v - 26)
    else if v < 62 then 0x30 + (v - 52)
    else if v == 62 then 0x2B
    else 0x2F
  }

  /** The alphabet of table 1 in section 4 of RFC 4648, in the order of the values, and the padding. */
  lemma Alphabet()
    ensures seq(64, v requires 0 <= v < 64 => Symbol(v)) ==
      [0x41, 0x42, 0x43, 0x44, 0x45, 0x46, 0x47, 0x48, 0x49, 0x4A, 0x4B, 0x4C, 0x4D] +
      [0x4E, 0x4F, 0x50, 0x51, 0x52, 0x53, 0x54, 0x55, 0x56, 0x57, 0x58, 0x59, 0x5A] +
      [0x61, 0x62, 0x63, 0x64, 0x65, 0x66, 0x67, 0x68, 0x69, 0x6A, 0x6B, 0x6C, 0x6D] +
      [0x6E, 0x6F, 0x70, 0x71, 0x72, 0x73, 0x74, 0x75, 0x76, 0x77, 0x78, 0x79, 0x7A] +
      [0x30, 0x31, 0x32, 0x33, 0x34, 0x35, 0x36, 0x37, 0x38, 0x39, 0x2B, 0x2F]
    ensures PAD == 0x3D
    ensures forall c: Byte :: IsSymbol(c) ==> Symbol(Value(c)) == c
  {
  }

  /** How many bytes the quartet q stands for; 0 when it is not a quartet of section 4. */
  function QuartetBytes(q: Text): (n: nat)
    ensures n <= 3
  {
    if |q| != 4 || !IsSymbol(q[0]) || !IsSymbol(q[1]) then 0
    else if IsSymbol(q[2]) && IsSymbol(q[3]) then 3
    else if IsSymbol(q[2]) && q[3] == PAD then 2
    else if q[2] == PAD && q[3] == PAD then 1
    else 0
  }

  /** Padded base64: full quartets, of which only the last may carry padding. */
  predicate Valid(x: Text) {
    x == [] ||
    (|x| >= 4 && QuartetBytes(x[..4]) != 0 && (|x| > 4 ==> QuartetBytes(x[..4]) == 3) && Valid(x[4..]))
  }

  function DecodeQuartet(q: Text): (b: Text)
    requires QuartetBytes(q) != 0
    ensures |b| == QuartetBytes(q)
  {
    var v0, v1 := Value(q[0]), Value(q[1]);
    var b0 := v0 * 4 + v1 / 16;
    if q[2] == PAD then [b0]
    else
      var v2 := Value(q[2]);
      var b1 := v1 % 16 * 16 + v2 / 4;
      if q[3] == PAD then [b0, b1]
      else [b0, b1, v2 % 4 * 64 + Value(q[3])]
  }

  function Decode(x: Text): (b: Text)
    requires Valid(x)
    ensures 4 * |b| <= 3 * |x|
  {
    if x == [] then [] else DecodeQuartet(x[..4]) + Decode(x[4..])
  }

  function EncodeQuartet(b: Text): (q: Text)
    requires 1 <= |b| <= 3
    ensures |q| == 4
  {
    var b1 := if |b| > 1 then b[1] else 0;
    var b2 := if |b| > 2 then b[2] else 0;
    [Symbol(b[0] / 4),
     Symbol(b[0] % 4 * 16 + b1 / 16),
     if |b| > 1 then Symbol(b1 % 16 * 4 + b2 / 64) else PAD,
     if |b| > 2 then Symbol(b2 % 64) else PAD]
  }

  function Encode(b: Text): Text {
    if b == [] then []
    else if |b| <= 3 then EncodeQuartet(b)
    else EncodeQuartet(b[..3]) + Encode(b[3..])
  }

  lemma PadIsNoSymbol()
    ensures !IsSymbol(PAD)
  {
  }

  lemma QuartetRoundTrip(b: Text)
    requires 1 <= |b| <= 3
    ensures QuartetBytes(EncodeQuartet(b)) == |b|
    ensures DecodeQuartet(EncodeQuartet(b)) == b
  {
    hide IsSymbol, Value, Symbol;
    PadIsNoSymbol();
  }

  /** Every payload survives encoding and decoding. */
  lemma {:induction false} RoundTrip(b: Text)
    ensures Valid(Encode(b)) && Decode(Encode(b)) == b
  {
    if b == [] {
    } else if |b| <= 3 {
      QuartetRoundTrip(b);
      var x := Encode(b);
      assert x[..4] == x && x[4..] == [];
    } else {
      QuartetRoundTrip(b[..3]);
      RoundTrip(b[3..]);
      var q, x := EncodeQuartet(b[..3]), Encode(b);
      assert x[..4] == q && x[4..] == Encode(b[3..]);
      assert b[..3] + b[3..] == b;
    }
  }

  lemma QuartetBits(q: Text)
    requires QuartetBytes(q) != 0
    ensures var b, v0, v1 := DecodeQuartet(q), Value(q[0]), Value(q[1]);
            && (|b| == 1 ==> b[0] == (v0 * 64 + v1) / 16)
            && (|b| == 2 ==> b[0] as int * 256 + b[1] == ((v0 * 64 + v1) * 64 + Value(q[2])) / 4)
            && (|b| == 3 ==> (b[0] as int * 256 + b[1]) * 256 + b[2] ==
                             ((v0 * 64 + v1) * 64 + Value(q[2])) * 64 + Value(q[3]))
  {
  }

  lemma DecodeFirst(x: Text)
    requires Valid(x) && x != []
    ensures |x| >= 4 && Valid(x[4..]) && Decode(x) == DecodeQuartet(x[..4]) + Decode(x[4..])
    ensures 1 <= QuartetBytes(x[..4]) <= 3 && (|x| > 4 ==> QuartetBytes(x[..4]) == 3)
    ensures |x| == 4 ==> Decode(x[4..]) == []
  {
  }

  /** Quartet k is decoded to the bytes from 3k on. */
  lemma {:induction false} DecodeAt(x: Text, k: nat)
    requires Valid(x) && 4 * k < |x|
    ensures 4 * k + 4 <= |x| && 3 * k < |Decode(x)|
    ensures var q := x[4 * k..4 * k + 4];
            && QuartetBytes(q) == (if 4 * k + 4 < |x| then 3 else |Decode(x)| - 3 * k) > 0
            && DecodeQuartet(q) <= Decode(x)[3 * k..]
            && (4 * k + 4 < |x| ==> |Decode(x)| > 3 * k + 3)
  {
    hide *;
    DecodeFirst(x);
    var rest := x[4..];
    if k > 0 {
      DecodeAt(rest, k - 1);
      assert rest[4 * (k - 1)..4 * (k - 1) + 4] == x[4 * k..4 * k + 4];
      assert Decode(x)[3 * k..] == Decode(rest)[3 * (k - 1)..];
    } else if rest != [] {
      DecodeFirst(rest);
    }
  }

  /** Decoding regroups bits: the values of quartet k, six bits each, and the bytes from 3k on are the same
      24-bit number; with padding, its leading 16 or 8 bits. */
  lemma DecodeBits(x: Text, k: nat)
    requires Valid(x) && 4 * k < |x|
    ensures 4 * k + 4 <= |x|
    ensures var q, b, n := x[4 * k..4 * k + 4], Decode(x), |Decode(x)| - 3 * k;
            && 1 <= n && (n == 1 <==> q[2] == 0x3D) && (n == 2 <==> q[2] != 0x3D && q[3] == 0x3D)
            && IsSymbol(q[0]) && IsSymbol(q[1]) && (n >= 2 ==> IsSymbol(q[2])) && (n >= 3 ==> IsSymbol(q[3]))
            && (n == 1 ==> b[3 * k] == (Value(q[0]) * 64 + Value(q[1])) / 16)
            && (n == 2 ==> b[3 * k] as int * 256 + b[3 * k + 1] ==
                           ((Value(q[0]) * 64 + Value(q[1])) * 64 + Value(q[2])) / 4)
            && (n >= 3 ==> (b[3 * k] as int * 256 + b[3 * k + 1]) * 256 + b[3 * k + 2] ==
                           ((Value(q[0]) * 64 + Value(q[1])) * 64 + Value(q[2])) * 64 + Value(q[3]))
  {
    hide Valid, Decode, DecodeQuartet, Value;
    DecodeAt(x, k);
    var q := x[4 * k..4 * k + 4];
    QuartetBits(q);
    var d := DecodeQuartet(q);
    assert forall i :: 0 <= i < |d| ==> d[i] == Decode(x)[3 * k..][i] == Decode(x)[3 * k + i];
  }

  /** Encoding regroups them back and pads with zero bits: four symbols for every three bytes begun. */
  lemma {:induction false} EncodeBits(b: Text, k: nat)
    requires 3 * k < |b|
    ensures |Encode(b)| == (|b| + 2) / 3 * 4 >= 4 * k + 4
    ensures var q, n := Encode(b)[4 * k..4 * k + 4], |b| - 3 * k;
            && IsSymbol(q[0]) && IsSymbol(q[1]) && (IsSymbol(q[2]) || n == 1) && (IsSymbol(q[3]) || n <= 2)
            && (n == 1 ==> q[2] == q[3] == 0x3D && Value(q[0]) * 64 + Value(q[1]) == b[3 * k] as int * 16)
            && (n == 2 ==> q[3] == 0x3D)
            && (n == 2 ==> (Value(q[0]) * 64 + Value(q[1])) * 64 + Value(q[2]) ==
                           (b[3 * k] as int * 256 + b[3 * k + 1]) * 4)
            && (n >= 3 ==> ((Value(q[0]) * 64 + Value(q[1])) * 64 + Value(q[2])) * 64 + Value(q[3]) ==
                           (b[3 * k] as int * 256 + b[3 * k + 1]) * 256 + b[3 * k + 2])
  {
    hide EncodeQuartet, IsSymbol, Value, Encode;
    EncodeLength(b);
    EncodeFirst(b);
    if k == 0 {
      EncodeQuartetBits(if |b| <= 3 then b else b[..3]);
    } else {
      var rest := b[3..];
      EncodeBits(rest, k - 1);
      assert Encode(b)[4 * k..4 * k + 4] == Encode(rest)[4 * (k - 1)..4 * (k - 1) + 4];
    }
  }

  lemma EncodeFirst(b: Text)
    requires b != []
    ensures |Encode(b)| >= 4
    ensures Encode(b)[..4] == EncodeQuartet(if |b| <= 3 then b else b[..3])
    ensures |b| > 3 ==> Encode(b)[4..] == Encode(b[3..])
  {
    hide EncodeQuartet;
  }

  lemma {:induction false} EncodeLength(b: Text)
    ensures |Encode(b)| == (|b| + 2) / 3 * 4
  {
    hide EncodeQuartet;
    if |b| > 3 {
      EncodeLength(b[3..]);
    }
  }

  lemma EncodeQuartetBits(b: Text)
    requires 1 <= |b| <= 3
    ensures var q, n := EncodeQuartet(b), |b|;
            && IsSymbol(q[0]) && IsSymbol(q[1]) && (IsSymbol(q[2]) || n == 1) && (IsSymbol(q[3]) || n <= 2)
            && (n == 1 ==> q[2] == q[3] == 0x3D && Value(q[0]) * 64 + Value(q[1]) == b[0] as int * 16)
            && (n == 2 ==> q[3] == 0x3D)
            && (n == 2 ==> (Value(q[0]) * 64 + Value(q[1])) * 64 + Value(q[2]) == (b[0] as int * 256 + b[1]) * 4)
            && (n == 3 ==> ((Value(q[0]) * 64 + Value(q[1])) * 64 + Value(q[2])) * 64 + Value(q[3]) ==
                           (b[0] as int * 256 + b[1]) * 256 + b[2])
  {
    hide Value, IsSymbol, Symbol;
  }

  /** A byte of valid base64 is an alphabet symbol or padding, never a parenthesis, a quote or a space. */
  lemma {:induction false} ValidBytes(x: Text)
    requires Valid(x)
    ensures forall c :: c in x ==> IsSymbol(c) || c == PAD
  {
    if x != [] {
      ValidBytes(x[4..]);
      assert x == x[..4] + x[4..];
    }
  }

  /** Stores the one to three bytes of a quartet. */
  method StoreBytes(a: array<Byte>, at: nat, b: Text)
    requires 1 <= |b| <= 3 && at + |b| <= a.Length
    modifies a
    ensures a[..] == Overwrite(old(a[..]), at, b)
  {
    a[at] := b[0];
    if |b| > 1 {
      a[at + 1] := b[1];
    }
    if |b| > 2 {
      a[at + 2] := b[2];
    }
  }

  /** With the output lying behind the read position, the next quartet is still the input's own. */
  lemma UnreadInput(before: Text, dst: nat, out: Text, src: nat, len: nat, r: nat)
    requires src + len <= |before| && r + 4 <= len && dst + |out| <= |before|
    requires out == [] || dst + |out| <= src + r
    ensures Overwrite(before, dst, out)[src + r..src + r + 4] == before[src..src + len][r..][..4]
    ensures before[src..src + len][r..][4..] == before[src..src + len][r + 4..]
  {
  }

  lemma {:induction false} DecodeNext(out: Text, x: Text)
    requires Valid(x) && x != []
    ensures |x| >= 4 && 1 <= QuartetBytes(x[..4]) <= 3 && Valid(x[4..])
    ensures out + Decode(x) == out + DecodeQuartet(x[..4]) + Decode(x[4..])
  {
  }

  lemma DecodeNothing()
    ensures Valid([]) && Decode([]) == []
  {
  }

  lemma NothingWritten(t: Text, at: nat)
    requires at <= |t|
    ensures Overwrite(t, at, []) == t
  {
  }

  /** base64_decode with its output area in the input's own array. Each quartet is read before
      its bytes are stored, so an output that starts at most one byte behind the input's first
      byte never reaches an unread quartet: the result is that of decoding into a separate buffer. */
  method DecodeOver(a: array<Byte>, dst: nat, src: nat, len: nat) returns (decoded: nat)
    requires dst <= src + 1 && dst <= a.Length && src + len <= a.Length
    requires Valid(a[src..src + len])
    modifies a
    ensures decoded == |Decode(old(a[src..src + len]))| && dst + decoded <= a.Length
    ensures a[..] == Overwrite(old(a[..]), dst, Decode(old(a[src..src + len])))
  {
    hide QuartetBytes, DecodeQuartet, Overwrite, Valid, Decode;
    ghost var x, before := a[src..src + len], a[..];
    ghost var out: Text := [];
    var r := 0;
    decoded := 0;
    assert x == before[src..src + len] && x[0..] == x;
    NothingWritten(before, dst);
    while r < len
      invariant decoded == |out| <= r <= len
      invariant decoded == r == 0 || dst + decoded <= src + r
      invariant a[..] == Overwrite(before, dst, out)
      invariant Valid(x[r..])
      invariant out + Decode(x[r..]) == Decode(x)
    {
      DecodeNext(out, x[r..]);
      UnreadInput(before, dst, out, src, len, r);
      var q := a[..][src + r..src + r + 4];
      var b := DecodeQuartet(q);
      StoreBytes(a, dst + decoded, b);
      OverwriteTwice(before, dst, out, b);
      out := out + b;
      decoded := decoded + |b|;
      r := r + 4;
    }
    assert x[r..] == [];
    DecodeNothing();
  }
}
