/** The texts a phone builds: plain JSON interleaved with atob("...") calls around base64
    payloads. What the watch makes of such a text is stated in terms of the payloads. */
module Messages {
  import opened Ascii
  import opened Bytes
  import opened Wrappers
  import opened AtobRewrite
  import Base64

  datatype Message =
    | Tail(plain: Text)
    | Part(plain: Text, payload: Text, rest: Message)

  /** atob("X") for the base64 text X of a payload. */
  function Call(payload: Text): Text {
    ATOB + Base64.Encode(payload) + [QUOTE, CLOSE]
  }

  /** The JSON text sent. */
  function Render(m: Message): Text {
    match m
    case Tail(plain) => plain
    case Part(plain, payload, rest) => plain + Call(payload) + Render(rest)
  }

  /** The JSON text meant: each call is its quoted payload, padded to the length of the call. */
  function Show(m: Message): (t: Text)
    ensures |t| == |Render(m)|
  {
    match m
    case Tail(plain) => plain
    case Part(plain, payload, rest) =>
      CallIsWellFormed(payload, []);
      assert Call(payload) + [] == Call(payload);
      plain + QuotedField(payload, |Call(payload)|) + Show(rest)
  }

  /** No call is written in the plain parts. */
  ghost predicate PlainParts(m: Message) {
    !Contains(m.plain, ATOB) && (m.Part? ==> PlainParts(m.rest))
  }

  /** Nothing that stands before a quote set by the decoder, plain text or payload, makes up
      atob(" with that quote or contains it. */
  ghost predicate Clean(m: Message) {
    m.Part? ==>
      !Contains(m.plain + [QUOTE], ATOB) && !Contains(m.payload + [QUOTE], ATOB) && Clean(m.rest)
  }

  lemma CallParts(t: Text, x: Text)
    requires Base64.Valid(x) && |t| >= |x| + 8
    requires t[..6] == ATOB && t[6..|x| + 6] == x && t[|x| + 6] == QUOTE && t[|x| + 7] == CLOSE
    ensures WellFormedCall(t) && CallEnd(t) == |x| + 7
  {
    hide Base64.Valid;
    Base64.ValidBytes(x);
    assert forall i :: 0 <= i < 6 ==> t[i] == t[..6][i];
    assert forall i :: 6 <= i < |x| + 6 ==> t[i] == t[6..|x| + 6][i - 6] && x[i - 6] in x;
    assert forall i :: 0 <= i < |x| + 7 ==> t[i] != CLOSE;
  }

  lemma CallSlices(x: Text, rest: Text)
    ensures var t := ATOB + x + [QUOTE, CLOSE] + rest;
            && t[..6] == ATOB && t[6..|x| + 6] == x && t[|x| + 6] == QUOTE && t[|x| + 7] == CLOSE
            && t[|x| + 8..] == rest
  {
  }

  /** Round trip: a call around the base64 text X of any payload B is well formed whatever follows
      it, and becomes quote, B, quote and |X|+6-|B| spaces; what follows is untouched. */
  lemma CallIsWellFormed(payload: Text, rest: Text)
    ensures WellFormedCall(Call(payload) + rest)
    ensures CallEnd(Call(payload) + rest) == |Call(payload)| - 1
    ensures Payload(Call(payload) + rest) == payload
    ensures |payload| + 2 <= |Call(payload)|
    ensures var x := Base64.Encode(payload);
            ReplaceCall(Call(payload) + rest) ==
              [QUOTE] + payload + [QUOTE] + Fill(SPACE, |x| + 6 - |payload|) + rest
  {
    hide Base64.Valid, Base64.Encode, WellFormedCall;
    var x := Base64.Encode(payload);
    Base64.RoundTrip(payload);
    CallSlices(x, rest);
    CallParts(Call(payload) + rest, x);
  }

  // The single pass over a message

  /** An occurrence that starts in plain text ends in it: what follows is a call or nothing. */
  lemma NoCallInPlain(plain: Text, t: Text)
    requires plain != [] && !Contains(plain, ATOB)
    requires t == [] || ATOB <= t
    ensures !(ATOB <= plain + t)
  {
    var all := plain + t;
    if |plain| >= 6 {
      assert all[..6] == plain[0..6];
      assert !OccursAt(plain, ATOB, 0);
    } else if t != [] {
      assert all[|plain|] == t[0] == ATOB[0];
      assert ATOB[|plain|] != ATOB[0];
    }
  }

  lemma SubstituteByte(t: Text)
    requires t != [] && !(ATOB <= t) && Substitute(t[1..]).Some?
    ensures Substitute(t) == Some([t[0]] + Substitute(t[1..]).value)
  {
  }

  /** Plain text without atob(" passes through, in front of a call or at the end. */
  lemma {:induction false} SubstitutePlain(plain: Text, t: Text)
    requires !Contains(plain, ATOB)
    requires t == [] || ATOB <= t
    requires Substitute(t).Some?
    ensures Substitute(plain + t) == Some(plain + Substitute(t).value)
  {
    hide *;
    if plain == [] {
      assert plain + t == t;
      assert plain + Substitute(t).value == Substitute(t).value;
    } else {
      NoCallInPlain(plain, t);
      assert (plain + t)[1..] == plain[1..] + t;
      assert [plain[0]] + plain[1..] == plain;
      ContainsRight([plain[0]], plain[1..], ATOB);
      SubstitutePlain(plain[1..], t);
      SubstituteByte(plain + t);
      assert [plain[0]] + (plain[1..] + Substitute(t).value) == plain + Substitute(t).value;
    }
  }

  lemma SubstituteCall(payload: Text, t: Text)
    requires Substitute(t).Some?
    ensures |payload| + 2 <= |Call(payload)|
    ensures ATOB <= Call(payload) + t
    ensures Substitute(Call(payload) + t) == Some(QuotedField(payload, |Call(payload)|) + Substitute(t).value)
  {
    hide WellFormedCall;
    CallIsWellFormed(payload, t);
    var all := Call(payload) + t;
    assert ATOB <= all;
    assert all[|Call(payload)|..] == t;
    assert all != [];
  }

  /** The single pass reads a message as it is meant. */
  lemma {:induction false} SubstituteMessage(m: Message)
    requires PlainParts(m)
    ensures Substitute(Render(m)) == Some(Show(m))
  {
    hide Call, QuotedField, Substitute, Contains;
    match m
    case Tail(plain) =>
      SubstituteNothing();
      SubstitutePlain(plain, []);
      assert plain + [] == plain;
    case Part(plain, payload, rest) =>
      SubstituteMessage(rest);
      SubstituteCall(payload, Render(rest));
      SubstitutePlain(plain, Call(payload) + Render(rest));
      assert plain + (Call(payload) + Render(rest)) == Render(m);
      assert plain + (QuotedField(payload, |Call(payload)|) + Show(rest)) == Show(m);
  }

  lemma SubstituteNothing()
    ensures Substitute([]) == Some([])
  {
  }

  // Where atob(" can come from

  lemma OccursAroundQuote(a: Text, b: Text, j: int)
    requires OccursAt(a + [QUOTE] + b, ATOB, j)
    ensures OccursAt(a + [QUOTE], ATOB, j) || OccursAt(b, ATOB, j - |a| - 1)
  {
    var t := a + [QUOTE] + b;
    if j <= |a| {
      if |a| < j + 5 {
        OccursByte(t, ATOB, j, |a| - j);
      }
      assert j + 6 <= |a| + 1;
      assert (a + [QUOTE])[j..j + 6] == t[j..j + 6];
    } else {
      assert b[j - |a| - 1..j - |a| + 5] == t[j..j + 6];
    }
  }

  /** A quote can only be the last byte of atob(". */
  lemma ContainsAcrossQuote(a: Text, b: Text)
    ensures Contains(a + [QUOTE] + b, ATOB) <==> Contains(a + [QUOTE], ATOB) || Contains(b, ATOB)
  {
    hide OccursAt;
    ContainsLeft(a + [QUOTE], b, ATOB);
    ContainsRight(a + [QUOTE], b, ATOB);
    if Contains(a + [QUOTE] + b, ATOB) {
      var j :| OccursAt(a + [QUOTE] + b, ATOB, j);
      OccursAroundQuote(a, b, j);
    }
  }

  /** The decoded message is free of atob(" exactly when no text before a decoder's quote runs into one. */
  lemma {:induction false} ShowIsClean(m: Message)
    requires PlainParts(m)
    ensures !Contains(Show(m), ATOB) <==> Clean(m)
  {
    if m.Part? {
      ShowIsClean(m.rest);
      ShowPart(m);
      var spaced := Fill(SPACE, |Call(m.payload)| - |m.payload| - 2) + Show(m.rest);
      ContainsAcrossQuote(m.plain, m.payload + [QUOTE] + spaced);
      ContainsAcrossQuote(m.payload, spaced);
      ContainsAfter(Fill(SPACE, |Call(m.payload)| - |m.payload| - 2), Show(m.rest), ATOB);
    }
  }

  lemma ShowPart(m: Message)
    requires m.Part?
    ensures |m.payload| + 2 <= |Call(m.payload)|
    ensures var spaced := Fill(SPACE, |Call(m.payload)| - |m.payload| - 2) + Show(m.rest);
            Show(m) == m.plain + [QUOTE] + (m.payload + [QUOTE] + spaced)
  {
    hide Call;
    CallIsWellFormed(m.payload, []);
    FieldInText(m.plain, m.payload, Fill(SPACE, |Call(m.payload)| - |m.payload| - 2), Show(m.rest));
  }

  lemma FieldInText(plain: Text, payload: Text, spaces: Text, rest: Text)
    ensures plain + ([QUOTE] + payload + [QUOTE] + spaces) + rest ==
            plain + [QUOTE] + (payload + [QUOTE] + (spaces + rest))
  {
  }

  /** What the loop of dump_gb makes of a message is what the message means, every byte outside the
      calls at its own index, exactly when the message is clean. */
  lemma RewriteMessage(m: Message)
    requires PlainParts(m)
    ensures Rewrite(Render(m)) == Some(Show(m)) <==> Clean(m)
  {
    SubstituteMessage(m);
    ShowIsClean(m);
    RewriteIsSubstitute(Render(m));
  }

  /** A message that is not clean: a payload that is itself a call is decoded a second time. The text does
      not become what was meant; where the inner payload is clean, the inner quoted field and its spaces
      end up between the outer quotes. */
  lemma CallInPayload(payload: Text)
    ensures Rewrite(Call(Call(payload))) != Some(Show(Part([], Call(payload), Tail([]))))
    ensures |payload| + 2 <= |Call(payload)| && |Call(payload)| + 2 <= |Call(Call(payload))|
    ensures !Contains(payload + [QUOTE], ATOB) ==>
      Rewrite(Call(Call(payload))) ==
        Some([QUOTE] + QuotedField(payload, |Call(payload)|) + Closing(|Call(Call(payload))| - |Call(payload)| - 2))
  {
    hide *;
    var inner := Call(payload);
    CallIsWellFormed(payload, []);
    CallIsWellFormed(inner, []);
    NotAsMeant(payload);
    if !Contains(payload + [QUOTE], ATOB) {
      var rest := Closing(|Call(inner)| - |inner| - 2);
      OuterDecoded(inner);
      ClosingIsPlain(|Call(inner)| - |inner| - 2);
      SubstituteInner(payload, rest);
      FieldIsClean(payload, rest);
      RewriteGoesOn([QUOTE], inner + rest);
      assert [QUOTE] + (QuotedField(payload, |inner|) + rest) == [QUOTE] + QuotedField(payload, |inner|) + rest;
    }
  }

  /** The quote that ends a field, and the spaces behind it. */
  function Closing(n: nat): Text {
    [QUOTE] + Fill(SPACE, n)
  }

  lemma NotAsMeant(payload: Text)
    ensures Rewrite(Call(Call(payload))) != Some(Show(Part([], Call(payload), Tail([]))))
  {
    var m := Part([], Call(payload), Tail([]));
    assert Render(m) == Call(Call(payload));
    NotInNothing(ATOB);
    assert OccursAt(Call(payload) + [QUOTE], ATOB, 0);
    RewriteMessage(m);
  }

  lemma OuterDecoded(payload: Text)
    ensures |payload| + 2 <= |Call(payload)|
    ensures Rewrite(Call(payload)) == Rewrite([QUOTE] + (payload + Closing(|Call(payload)| - |payload| - 2)))
  {
    hide Rewrite, Call, WellFormedCall, ReplaceCall, Contains;
    var t := Call(payload);
    CallReplaced(payload);
    NotInNothing(ATOB);
    RewriteFirstCall([], t);
    assert [] + t == t && [] + ReplaceCall(t) == ReplaceCall(t);
  }

  lemma CallReplaced(payload: Text)
    ensures WellFormedCall(Call(payload)) && |payload| + 2 <= |Call(payload)|
    ensures ReplaceCall(Call(payload)) == [QUOTE] + (payload + Closing(|Call(payload)| - |payload| - 2))
  {
    hide WellFormedCall, ReplaceCall, Base64.Encode;
    var x := Base64.Encode(payload);
    CallIsWellFormed(payload, []);
    assert Call(payload) + [] == Call(payload);
    FieldAlone(payload, Fill(SPACE, |x| + 6 - |payload|));
  }

  lemma FieldAlone(payload: Text, spaces: Text)
    ensures [QUOTE] + payload + [QUOTE] + spaces + [] == [QUOTE] + (payload + ([QUOTE] + spaces))
  {
  }

  lemma ClosingIsPlain(n: nat)
    ensures !Contains(Closing(n), ATOB)
  {
    NotInNothing(ATOB);
    ContainsAfter(Closing(n), [], ATOB);
    assert Closing(n) + [] == Closing(n);
  }

  lemma SubstituteInner(payload: Text, rest: Text)
    requires !Contains(rest, ATOB)
    ensures |payload| + 2 <= |Call(payload)|
    ensures Substitute(Call(payload) + rest) == Some(QuotedField(payload, |Call(payload)|) + rest)
  {
    hide Substitute, Contains, Call, QuotedField;
    SubstituteNothing();
    SubstitutePlain(rest, []);
    assert rest + [] == rest;
    SubstituteCall(payload, rest);
  }

  lemma FieldIsClean(payload: Text, rest: Text)
    requires !Contains(payload + [QUOTE], ATOB) && !Contains(rest, ATOB)
    ensures |payload| + 2 <= |Call(payload)|
    ensures !Contains([QUOTE] + (QuotedField(payload, |Call(payload)|) + rest), ATOB)
  {
    hide Call, Contains;
    CallIsWellFormed(payload, []);
    var spaces := Fill(SPACE, |Call(payload)| - |payload| - 2);
    ContainsAfter(spaces, rest, ATOB);
    ContainsAcrossQuote(payload, spaces + rest);
    ContainsAfter([QUOTE, QUOTE], payload + [QUOTE] + (spaces + rest), ATOB);
    FieldQuoted(payload, spaces, rest);
  }

  lemma FieldQuoted(payload: Text, spaces: Text, rest: Text)
    ensures [QUOTE] + ([QUOTE] + payload + [QUOTE] + spaces + rest) ==
            [QUOTE, QUOTE] + (payload + [QUOTE] + (spaces + rest))
  {
  }
}
