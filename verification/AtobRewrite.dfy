/** gb_parse.cpp: every atob("...") call in a JSON text is replaced, in the text's own bytes,
    by the quoted payload and enough spaces to keep the length. */
module AtobRewrite {
  import opened Ascii
  import opened Bytes
  import opened Wrappers
  import Base64

  /** The index of the ')' that ends the call `t` starts with. The byte before it is
      taken to be the closing quote without a look. */
  predicate WellFormedCall(t: Text) {
    var end := FindByte(t, CLOSE);
    ATOB <= t && end.Some? && end.value >= 7 && Base64.Valid(t[6..end.value - 1])
  }

  function CallEnd(t: Text): (end: nat)
    requires WellFormedCall(t)
    ensures 7 <= end < |t|
  {
    FindByte(t, CLOSE).value
  }

  function Payload(t: Text): (b: Text)
    requires WellFormedCall(t)
    ensures |b| + 7 <= CallEnd(t)
  {
    Base64.Decode(t[6..CallEnd(t) - 1])
  }

  /** What a call of `size` bytes carrying `payload` is replaced by. */
  function QuotedField(payload: Text, size: nat): (f: Text)
    requires |payload| + 2 <= size
    ensures |f| == size
  {
    [QUOTE] + payload + [QUOTE] + Fill(SPACE, size - |payload| - 2)
  }

  /** `t` with the call it starts with replaced. */
  function ReplaceCall(t: Text): (r: Text)
    requires WellFormedCall(t)
    ensures |r| == |t|
  {
    QuotedField(Payload(t), CallEnd(t) + 1) + t[CallEnd(t) + 1..]
  }

  // The termination measure

  function NonSpace(t: Text): nat {
    if t == [] then 0 else (if t[0] == SPACE then 0 else 1) + NonSpace(t[1..])
  }

  lemma {:induction false} NonSpaceConcat(a: Text, b: Text)
    ensures NonSpace(a + b) == NonSpace(a) + NonSpace(b)
  {
    if a == [] {
      assert a + b == b;
    } else {
      assert (a + b)[1..] == a[1..] + b;
      NonSpaceConcat(a[1..], b);
    }
  }

  lemma {:induction false} NonSpaceBounds(t: Text)
    ensures NonSpace(t) <= |t|
    ensures (forall c :: c in t ==> c != SPACE) ==> NonSpace(t) == |t|
    ensures (forall c :: c in t ==> c == SPACE) ==> NonSpace(t) == 0
  {
    if t != [] {
      NonSpaceBounds(t[1..]);
      assert t[0] in t && forall c :: c in t[1..] ==> c in t;
    }
  }

  /** A call counts all its bytes except a space in place of its closing quote. */
  lemma CallNonSpace(t: Text)
    requires WellFormedCall(t)
    ensures NonSpace(t) >= CallEnd(t) + (if t[CallEnd(t) - 1] == SPACE then 0 else 1) + NonSpace(t[CallEnd(t) + 1..])
  {
    hide Base64.Valid, NonSpace;
    var end := CallEnd(t);
    var x, q, rest := t[6..end - 1], [t[end - 1]], t[end + 1..];
    assert t == ATOB + x + q + [CLOSE] + rest;
    NonSpaceConcat(ATOB + x + q + [CLOSE], rest);
    NonSpaceConcat(ATOB + x + q, [CLOSE]);
    NonSpaceConcat(ATOB + x, q);
    NonSpaceConcat(ATOB, x);
    Base64.ValidBytes(x);
    NonSpaceBounds(x);
    NonSpaceBounds(ATOB);
    NonSpaceBounds(q);
    NonSpaceBounds([CLOSE]);
  }

  /** Replacing a call leaves at least six non-space bytes fewer, one less if the unchecked
      closing quote is itself a space. */
  lemma ReplaceCallShrinks(t: Text)
    requires WellFormedCall(t)
    ensures NonSpace(ReplaceCall(t)) + (if t[CallEnd(t) - 1] == SPACE then 5 else 6) <= NonSpace(t)
  {
    hide WellFormedCall, NonSpace, CallEnd, Payload, QuotedField;
    CallNonSpace(t);
    FieldNonSpace(Payload(t), CallEnd(t) + 1);
    NonSpaceConcat(QuotedField(Payload(t), CallEnd(t) + 1), t[CallEnd(t) + 1..]);
  }

  lemma FieldNonSpace(b: Text, size: nat)
    requires |b| + 2 <= size
    ensures NonSpace(QuotedField(b, size)) <= |b| + 2
  {
    var spaces := Fill(SPACE, size - |b| - 2);
    NonSpaceConcat([QUOTE] + b + [QUOTE], spaces);
    NonSpaceBounds([QUOTE] + b + [QUOTE]);
    NonSpaceBounds(spaces);
  }

  lemma ReplaceInside(t: Text, i: nat)
    requires i <= |t| && WellFormedCall(t[i..])
    ensures NonSpace(t[..i] + ReplaceCall(t[i..])) < NonSpace(t)
  {
    hide WellFormedCall, NonSpace, ReplaceCall;
    ReplaceCallShrinks(t[i..]);
    NonSpaceConcat(t[..i], ReplaceCall(t[i..]));
    NonSpaceConcat(t[..i], t[i..]);
    assert t == t[..i] + t[i..];
  }

  // The loop of dump_gb, and the substitution it stands for

  /** The loop of dump_gb: it searches from the start again after each replacement, so it also
      sees calls that a replacement has created. None when a call it reaches is malformed. */
  function Rewrite(t: Text): (r: Option<Text>)
    ensures r.Some? ==> |r.value| == |t| && Find(r.value, ATOB).None?
    decreases NonSpace(t)
  {
    match Find(t, ATOB)
    case None => Some(t)
    case Some(i) =>
      if WellFormedCall(t[i..]) then
        ReplaceInside(t, i);
        Rewrite(t[..i] + ReplaceCall(t[i..]))
      else None
  }

  /** The one-pass reading of a text: each call it was sent with is replaced, everything else stays. */
  function Substitute(t: Text): (r: Option<Text>)
    ensures r.Some? ==> |r.value| == |t|
  {
    if t == [] then Some([])
    else if ATOB <= t then
      if WellFormedCall(t) then
        var end := CallEnd(t);
        match Substitute(t[end + 1..])
        case None => None
        case Some(u) => Some(QuotedField(Payload(t), end + 1) + u)
      else None
    else
      match Substitute(t[1..])
      case None => None
      case Some(u) => Some([t[0]] + u)
  }

  lemma RewriteFirstCall(done: Text, t: Text)
    requires WellFormedCall(t) && !Contains(done, ATOB)
    ensures Rewrite(done + t) == Rewrite(done + ReplaceCall(t))
  {
    FirstOccurrence(done, t, ATOB);
    assert (done + t)[..|done|] == done && (done + t)[|done|..] == t;
  }

  lemma SubstituteNext(t: Text)
    requires t != [] && Substitute(t).Some?
    ensures ATOB <= t ==>
      WellFormedCall(t) && Substitute(t[CallEnd(t) + 1..]).Some? &&
      Substitute(t).value == QuotedField(Payload(t), CallEnd(t) + 1) + Substitute(t[CallEnd(t) + 1..]).value
    ensures !(ATOB <= t) ==>
      Substitute(t[1..]).Some? && Substitute(t).value == [t[0]] + Substitute(t[1..]).value
  {
  }

  /** With `done` already handled, the restarting loop goes on like the single pass. */
  lemma {:induction false} RewriteGoesOn(done: Text, t: Text)
    requires Substitute(t).Some?
    requires !Contains(done + Substitute(t).value, ATOB)
    ensures Rewrite(done + t) == Some(done + Substitute(t).value)
    decreases |t|
  {
    hide WellFormedCall, QuotedField, Contains, Payload, CallEnd;
    if t == [] {
      assert done + t == done + Substitute(t).value == done;
    } else {
      SubstituteNext(t);
      if ATOB <= t {
        var field, rest := QuotedField(Payload(t), CallEnd(t) + 1), t[CallEnd(t) + 1..];
        ContainsLeft(done, Substitute(t).value, ATOB);
        RewriteFirstCall(done, t);
        assert done + ReplaceCall(t) == (done + field) + rest;
        assert done + Substitute(t).value == (done + field) + Substitute(rest).value;
        RewriteGoesOn(done + field, rest);
      } else {
        assert done + t == (done + [t[0]]) + t[1..];
        assert done + Substitute(t).value == (done + [t[0]]) + Substitute(t[1..]).value;
        RewriteGoesOn(done + [t[0]], t[1..]);
      }
    }
  }

  /** The restarting in-place loop computes the one-pass substitution exactly when that
      substitution is free of atob(". */
  lemma RewriteIsSubstitute(t: Text)
    requires Substitute(t).Some?
    ensures Rewrite(t) == Substitute(t) <==> !Contains(Substitute(t).value, ATOB)
  {
    var u := Substitute(t).value;
    if !Contains(u, ATOB) {
      assert [] + u == u && [] + t == t;
      RewriteGoesOn([], t);
    }
  }

  // The code, on the receive buffer

  /** base64_decode_in_place on the text a[at..hi]: decodes from offset 6 to offset 1, blanks what
      is left up to and including the ')', and sets the two quotes. Nothing past the ')' changes. */
  method Base64DecodeInPlace(a: array<Byte>, at: nat, hi: nat)
    requires at <= hi <= a.Length && WellFormedCall(a[at..hi])
    modifies a
    ensures var call := old(a[at..hi]);
            a[..] == Overwrite(old(a[..]), at, QuotedField(Payload(call), CallEnd(call) + 1))
  {
    hide *;
    ghost var before := a[..];
    var sv := a[at..hi];
    var end := CallEnd(sv);
    CallInput(before, at, hi);
    var decodedLength := Base64.DecodeOver(a, at + 1, at + 6, end - 7);
    ghost var decoded := a[..];
    forall i | at + decodedLength + 2 <= i < at + end + 1 {
      a[i] := SPACE;
    }
    a[at] := QUOTE;
    a[at + 1 + decodedLength] := QUOTE;
    CallLayout(before, decoded, a[..], at, Payload(sv), end);
  }

  lemma CallInput(t: Text, at: nat, hi: nat)
    requires at <= hi <= |t| && WellFormedCall(t[at..hi])
    ensures var end := CallEnd(t[at..hi]); at + end < hi
    ensures var x := t[at + 6..at + 6 + (CallEnd(t[at..hi]) - 7)];
            Base64.Valid(x) && Payload(t[at..hi]) == Base64.Decode(x)
  {
    hide Base64.Valid, Base64.Decode;
    SliceOfSlice(t, at, hi, 6, CallEnd(t[at..hi]) - 1);
  }

  lemma CallLayout(before: Text, decoded: Text, now: Text, at: nat, b: Text, end: nat)
    requires |b| + 7 <= end && at + end < |before| == |now|
    requires decoded == Overwrite(before, at + 1, b)
    requires now[at] == now[at + 1 + |b|] == QUOTE
    requires forall i :: at + |b| + 2 <= i <= at + end ==> now[i] == SPACE
    requires forall i :: 0 <= i < |now| && !(i == at || at + |b| + 1 <= i <= at + end) ==> now[i] == decoded[i]
    ensures now == Overwrite(before, at, QuotedField(b, end + 1))
  {
  }

  /** The rewriting loop of dump_gb on the JSON text a[lo..hi]. */
  method RewriteInPlace(a: array<Byte>, lo: nat, hi: nat)
    requires lo <= hi <= a.Length && Rewrite(a[lo..hi]).Some?
    modifies a
    ensures a[..] == Overwrite(old(a[..]), lo, Rewrite(old(a[lo..hi])).value)
  {
    hide *;
    ghost var before, t := a[..], a[lo..hi];
    OverwriteAgain(before, lo, t, t);
    OverwriteWithin(before, lo, hi, 0, t);
    var idx := Find(a[lo..hi], ATOB);
    while idx.Some?
      invariant |t| == hi - lo && a[..] == Overwrite(before, lo, t)
      invariant Rewrite(t).Some? && Rewrite(t) == Rewrite(before[lo..hi])
      invariant idx == Find(t, ATOB)
      decreases NonSpace(t)
    {
      ghost var i := idx.value;
      OverwriteAgain(before, lo, t, t);
      RewriteNext(t, i);
      SliceOfSlice(a[..], lo, hi, i, hi - lo);
      Base64DecodeInPlace(a, lo + idx.value, hi);
      RewriteStep(before, t, lo, i);
      t := t[..i] + ReplaceCall(t[i..]);
      OverwriteAgain(before, lo, t, t);
      idx := Find(a[lo..hi], ATOB);
    }
    assert Rewrite(t) == Some(t) by { RewriteDone(t); }
  }

  lemma RewriteNext(t: Text, i: nat)
    requires Rewrite(t).Some? && Find(t, ATOB) == Some(i)
    ensures i <= |t| && WellFormedCall(t[i..])
    ensures Rewrite(t) == Rewrite(t[..i] + ReplaceCall(t[i..]))
    ensures NonSpace(t[..i] + ReplaceCall(t[i..])) < NonSpace(t)
  {
    ReplaceInside(t, i);
  }

  lemma RewriteDone(t: Text)
    requires Find(t, ATOB).None?
    ensures Rewrite(t) == Some(t)
  {
  }

  lemma NothingToRewrite()
    ensures Rewrite([]) == Some([])
  {
    NotInNothing(ATOB);
  }

  lemma RewriteStep(before: Text, t: Text, lo: nat, i: nat)
    requires lo + |t| <= |before| && i <= |t| && WellFormedCall(t[i..])
    ensures var field := QuotedField(Payload(t[i..]), CallEnd(t[i..]) + 1);
            Overwrite(Overwrite(before, lo, t), lo + i, field) == Overwrite(before, lo, t[..i] + ReplaceCall(t[i..]))
  {
    hide WellFormedCall, Payload, CallEnd, QuotedField;
    var field := QuotedField(Payload(t[i..]), CallEnd(t[i..]) + 1);
    OverwriteAgain(before, lo, t, t);
    OverwriteWithin(Overwrite(before, lo, t), lo, lo + |t|, i, field);
    OverwriteAgain(before, lo, t, Overwrite(t, i, field));
    assert Overwrite(t, i, field) == t[..i] + ReplaceCall(t[i..]);
  }
}
