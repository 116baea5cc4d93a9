/** gap_client.cpp: reads of the peer's device name, meant to run one at a time. The Bluetooth stack's
    answers are parameters; the stack answers the reads it has taken in order, each by one read callback. */
module GapClient {
  import opened Wrappers

  type Callback = nat
  type Connection = nat

  const EBUSY := 16
  const EINVAL := 22
  const ENOTSUP := 134

  /** Whose function the client has stored: nobody's, that of the read taken as number `index`, or that of
      a read the stack refused. */
  datatype Owner = Nobody | Read(index: nat) | Refused

  /** Every answer called the function given to its own read. */
  ghost predicate OwnAnswers(answered: seq<Owner>) {
    forall i :: 0 <= i < |answered| ==> answered[i] == Read(i)
  }

  class Client {
    var conn: Option<Connection>
    var handleDevName: nat
    var pending: bool  // GAP_ASYNC_READ_PENDING of the state word
    var readCb: Option<Callback>
    var readFunc: bool  // whether read_params.func is set, through which the stack answers
    var readHandle: nat  // read_params.single.handle
    ghost var accepted: seq<Callback>  // the functions of the reads the stack has taken
    ghost var answered: seq<Owner>  // whose function each answer has called
    ghost var owner: Owner  // whose function is stored
    ghost var lost: bool  // whether a reset has ever cleared the bit of an unanswered read
    ghost var overlapped: bool  // whether a read was ever tried while another was unanswered

    /** Kept by every operation, at any time. Without such a reset at most one read is unanswered, the pending
        bit tells whether there is one, and no reads overlap. As long as none overlap every answer calls its own
        read's function; once they do, one does not, or the next will not. */
    ghost predicate Valid()
      reads this
    {
      && |answered| <= |accepted| && (pending ==> |answered| < |accepted|)
      && (readFunc ==> readCb.Some? && owner != Nobody)
      && (owner.Read? ==> owner.index < |accepted| && readCb == Some(accepted[owner.index]))
      && (!lost ==> !overlapped && (pending <==> |answered| < |accepted|) && (pending ==> readFunc))
      && (!overlapped ==> OwnAnswers(answered) && |accepted| <= |answered| + 1)
      && (!overlapped && |answered| < |accepted| && readFunc ==> owner == Read(|answered|))
      && (overlapped && OwnAnswers(answered) ==> |answered| < |accepted| && owner != Read(|answered|))
    }

    constructor ()
      ensures Valid() && !pending && conn == None && accepted == [] && answered == [] && !lost && !overlapped
    {
      conn, handleDevName, pending, readCb, readFunc, readHandle := None, 0, false, None, false, 0;
      accepted, answered, owner, lost, overlapped := [], [], Nobody, false, false;
    }

    /** gap_client_init clears everything, an unanswered read's bit and function included. */
    method Init()
      requires Valid()
      modifies this
      ensures Valid()
      ensures !pending && conn == None && handleDevName == 0 && readCb == None && !readFunc && readHandle == 0
      ensures accepted == old(accepted) && answered == old(answered)
      ensures lost == (old(lost) || old(pending)) && overlapped == old(overlapped) && owner == Nobody
    {
      lost, owner := lost || pending, Nobody;
      conn, handleDevName, pending, readCb, readFunc, readHandle := None, 0, false, None, false, 0;
    }

    /** gap_client_handles_assign for a discovered service: whether it is the GAP service, the handle of
        its device name descriptor (None without the characteristic or the descriptor), and the link. */
    method HandlesAssign(isGap: bool, deviceName: Option<nat>, dmConn: Connection) returns (err: int)
      requires Valid()
      modifies this
      ensures Valid()
      ensures accepted == old(accepted) && answered == old(answered)
      ensures readCb == old(readCb) && readFunc == old(readFunc) && readHandle == old(readHandle)
      ensures lost == (old(lost) || (isGap && old(pending))) && overlapped == old(overlapped) && owner == old(owner)
      ensures !isGap ==> err == -134 && unchanged(this)
      ensures isGap ==> !pending && (deviceName.None? ==> err == -22 && conn == None && handleDevName == 0)
      ensures isGap && deviceName.Some? ==> err == 0 && conn == Some(dmConn) && handleDevName == deviceName.value
    {
      if !isGap {
        return -ENOTSUP;
      }
      lost := lost || pending;
      conn, handleDevName, pending := None, 0, false;
      if deviceName.None? {
        return -EINVAL;
      }
      handleDevName := deviceName.value;
      conn := Some(dmConn);
      return 0;
    }

    /** gap_client_read_device_name, with the answer bt_gatt_read would give. The stack takes the read exactly
        when 0 is returned; a call refused as invalid or busy changes nothing. */
    method ReadDeviceName(func: Option<Callback>, gattRead: int) returns (err: int)
      requires Valid()
      modifies this
      ensures Valid()
      ensures conn == old(conn) && handleDevName == old(handleDevName)
      ensures answered == old(answered) && lost == old(lost)
      ensures err == if conn.None? || func.None? then -22 else if old(pending) then -16 else gattRead
      ensures conn.None? || func.None? || old(pending) ==> unchanged(this)
      ensures conn.Some? && func.Some? && !old(pending) ==>
        && readCb == func && readFunc && readHandle == handleDevName && (pending <==> gattRead == 0)
        && accepted == old(accepted) + (if gattRead == 0 then [func.value] else [])
        && owner == (if gattRead == 0 then Read(|old(accepted)|) else Refused)
        && overlapped == (old(overlapped) || |old(answered)| < |old(accepted)|)
    {
      if conn.None? || func.None? {
        return -EINVAL;
      }
      if pending {
        return -EBUSY;
      }
      pending := true;
      readCb := func;
      readFunc := true;
      readHandle := handleDevName;
      overlapped := overlapped || |answered| < |accepted|;
      err := gattRead;
      if err != 0 {
        pending := false;
        owner := Refused;
      } else {
        owner := Read(|accepted|);
        accepted := accepted + [func.value];
      }
    }

    /** gap_client_read_callback, by which the stack answers the oldest unanswered read. It clears the pending
        bit before it calls the stored function, so that function may start the next read. */
    method ReadCallback() returns (called: Option<Callback>)
      requires Valid() && readFunc && |answered| < |accepted|
      modifies this
      ensures Valid() && !pending
      ensures called == readCb && called.Some? && answered == old(answered) + [owner]
      ensures !overlapped ==> called == Some(accepted[|old(answered)|])
      ensures accepted == old(accepted) && lost == old(lost) && overlapped == old(overlapped) && owner == old(owner)
      ensures conn == old(conn) && handleDevName == old(handleDevName)
      ensures readCb == old(readCb) && readFunc && readHandle == old(readHandle)
    {
      AnswerNext(answered, owner);
      pending := false;
      called := readCb;
      answered := answered + [owner];
    }

    /** Over every run in which all reads taken are answered: each answer called its own read's function exactly
        when no read was tried while another was unanswered, which takes a reset at such a time. */
    lemma AnswersIff()
      requires Valid() && |answered| == |accepted|
      ensures OwnAnswers(answered) <==> !overlapped
      ensures overlapped ==> lost
    {
    }
  }

  lemma AnswerNext(answered: seq<Owner>, owner: Owner)
    ensures OwnAnswers(answered + [owner]) <==> OwnAnswers(answered) && owner == Read(|answered|)
  {
    var longer := answered + [owner];
    assert longer[|answered|] == owner;
    assert forall i :: 0 <= i < |answered| ==> longer[i] == answered[i];
  }

  /** How it goes wrong: with a read unanswered, discovery finds the service again, which initialises the client
      and assigns its handles. The next read is taken, and the answer to the first one calls its function; when its
      own answer comes, the same function is called again. */
  method ReadAfterReset(c: Client, func: Callback, deviceName: nat, dmConn: Connection)
    returns (first: Option<Callback>, second: Option<Callback>)
    requires c.Valid() && !c.lost && c.pending
    modifies c
    ensures c.Valid() && c.accepted == old(c.accepted) + [func]
    ensures first == second == Some(func)
    ensures var mine := Read(|old(c.accepted)|); c.answered == old(c.answered) + [mine, mine]
    ensures !OwnAnswers(c.answered)
  {
    ghost var before := c.answered;
    c.Init();
    var err := c.HandlesAssign(true, Some(deviceName), dmConn);
    err := c.ReadDeviceName(Some(func), 0);
    first := c.ReadCallback();
    second := c.ReadCallback();
    assert c.answered == before + [c.owner, c.owner];
    assert c.answered[|before|] != Read(|before|);
  }
}
