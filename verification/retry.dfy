/** Retry and recovery: connection initialisation, the status-byte policy of
    `send_custom_read_command` (with power-save re-initialisation), and the
    keepalive exchange. */
module Retry {
  import opened Bytes
  import opened Errors
  import opened Consts
  import opened Codec
  import opened Transfer

  /** `StatusByteAction`: how the first byte of a reply is treated. */
  datatype StatusByteAction = Evaluate | Ignore | IgnoreButRetryIfPowerSaving

  /** Status byte of a camera that has gone to power-save mode. */
  const POWER_SAVE_STATUS: Byte := 255

  /** Number of chunked reads (`read_data` calls) in an exchange log. */
  function CountChunked(xs: seq<Exchange>): (n: nat)
    ensures n <= |xs|
  {
    if |xs| == 0 then 0
    else CountChunked(xs[..|xs| - 1]) + (if xs[|xs| - 1].ChunkedRead? then 1 else 0)
  }

  lemma CountChunkedSnoc(xs: seq<Exchange>, x: Exchange)
    ensures CountChunked(xs + [x]) == CountChunked(xs) + (if x.ChunkedRead? then 1 else 0)
  {
    assert (xs + [x])[..|xs|] == xs;
  }

  /** None of the exchanges `ys` is a chunked read. */
  ghost predicate NoChunked(ys: seq<Exchange>)
  {
    forall x :: x in ys ==> !x.ChunkedRead?
  }

  lemma NoChunkedJoin(a: seq<Exchange>, b: seq<Exchange>, c: seq<Exchange>)
    requires a <= b <= c && NoChunked(b[|a|..]) && NoChunked(c[|b|..])
    ensures NoChunked(c[|a|..])
  {
    assert c[|a|..] == b[|a|..] + c[|b|..];
  }

  /** Appending exchanges that are not chunked reads leaves the count alone. */
  lemma {:induction false} CountChunkedNone(xs: seq<Exchange>, ys: seq<Exchange>)
    requires xs <= ys && NoChunked(ys[|xs|..])
    ensures CountChunked(ys) == CountChunked(xs)
    decreases |ys|
  {
    if |ys| > |xs| {
      var ys' := ys[..|ys| - 1];
      assert ys[|ys| - 1] in ys[|xs|..];
      assert ys'[|xs|..] == ys[|xs|..|ys| - 1];
      assert forall x :: x in ys'[|xs|..] ==> x in ys[|xs|..];
      CountChunkedNone(xs, ys');
    } else {
      assert ys == xs;
    }
  }

  /** The errors connection initialisation can end with. */
  ghost predicate InitError(env: Env, e: CamError)
  {
    || e.IsTransport()
    || e == ConnInit(env.defaultTries, 1)
    || (e.ConnInit? && e.tries == 1 && e.statusCode != 0 && e.statusCode != 1 && e.statusCode < 0x100)
  }

  /** The loop of `initialize_comm` with `remaining` attempts left: byte 0 of
      the open-connection reply is 0 (done), 1 (try again) or anything else
      (give up at once with that status). Indexing an empty reply panics. */
  function InitAttempts(env: Env, link: Link, remaining: nat): (o: Out<()>)
    ensures Follows(link, o.link) && o.link.requests == link.requests
    ensures NoChunked(o.link.exchanges[|link.exchanges|..])
    ensures o.result.Err? ==> InitError(env, o.result.error)
    ensures o.result.Panic? ==> o.result.site == OpenConnReplyEmpty
    decreases remaining
  {
    if remaining == 0 then Out(Err(ConnInit(env.defaultTries, 1)), link)
    else
      var r := ReadDataUnchecked(env, link, OPEN_CONN_COMMAND);
      assert r.link.exchanges[|link.exchanges|..] == [UncheckedRead(OPEN_CONN_COMMAND)];
      if !r.result.Ok? then Out(r.result.Cast(), r.link)
      else
        var out := r.result.value;
        if |out| == 0 then Out(Panic(OpenConnReplyEmpty), r.link)
        else if out[0] == 0 then Out(Ok(()), r.link)
        else if out[0] == 1 then
          var o := InitAttempts(env, r.link, remaining - 1);
          FollowsTrans(link, r.link, o.link);
          NoChunkedJoin(link.exchanges, r.link.exchanges, o.link.exchanges);
          o
        else Out(Err(ConnInit(1, out[0])), r.link)
  }

  /** `initialize_comm`: up to `default_tries` open-connection attempts. */
  function InitializeComm(env: Env, link: Link): (o: Out<()>)
    ensures Follows(link, o.link) && o.link.requests == link.requests
    ensures NoChunked(o.link.exchanges[|link.exchanges|..])
    ensures o.result.Err? ==> InitError(env, o.result.error)
    ensures o.result.Panic? ==> o.result.site == OpenConnReplyEmpty
  {
    InitAttempts(env, link, env.defaultTries)
  }

  /** A reply to the open-connection command whose byte 0 is `status`. */
  ghost predicate OpenReply(r: Reply, status: Byte)
  {
    r.Data? && |r.bytes| > 0 && r.bytes[0] == status
  }

  /** An attempt answered with 1 spends one attempt and consumes one reply
      of each script. */
  lemma InitStep(env: Env, link: Link, remaining: nat) returns (next: Link)
    requires remaining > 0 && |link.outs| > 0 && link.outs[0].Accepted? && |link.ins| > 0
    requires OpenReply(link.ins[0], 1)
    ensures next.outs == link.outs[1..] && next.ins == link.ins[1..]
    ensures InitAttempts(env, link, remaining) == InitAttempts(env, next, remaining - 1)
  {
    next := ReadDataUnchecked(env, link, OPEN_CONN_COMMAND).link;
  }

  /** An attempt answered with 0 ends the loop with success. */
  lemma InitReady(env: Env, link: Link, remaining: nat)
    requires remaining > 0 && |link.outs| > 0 && link.outs[0].Accepted? && |link.ins| > 0
    requires OpenReply(link.ins[0], 0)
    ensures InitAttempts(env, link, remaining).result == Ok(())
  {
  }

  /** Scripts whose first `n` attempts are accepted and answered with 1. */
  ghost predicate BusyScript(outs: seq<Ack>, ins: seq<Reply>, n: nat)
  {
    |outs| >= n && |ins| >= n && forall i :: 0 <= i < n ==> outs[i].Accepted? && OpenReply(ins[i], 1)
  }

  lemma BusyScriptShift(outs: seq<Ack>, ins: seq<Reply>, n: nat)
    requires n > 0 && BusyScript(outs, ins, n)
    ensures |outs| > 0 && outs[0].Accepted? && |ins| > 0 && OpenReply(ins[0], 1)
    ensures BusyScript(outs[1..], ins[1..], n - 1)
  {
    forall i | 0 <= i < n - 1
      ensures outs[1..][i].Accepted? && OpenReply(ins[1..][i], 1)
    {
      assert outs[1..][i] == outs[i + 1] && ins[1..][i] == ins[i + 1];
    }
  }

  /** With no attempts left the loop gives up as after `default_tries` busy
      replies. */
  lemma InitExhausted(env: Env, link: Link)
    ensures InitAttempts(env, link, 0).result == Err(ConnInit(env.defaultTries, 1))
  {
  }

  /** `default_tries` replies of 1 exhaust the loop with
      `ConnInit { tries: default_tries, status_code: 1 }`. */
  lemma {:induction false} InitAllBusy(env: Env, link: Link, remaining: nat)
    requires BusyScript(link.outs, link.ins, remaining)
    ensures InitAttempts(env, link, remaining).result == Err(ConnInit(env.defaultTries, 1))
    decreases remaining, 1
  {
    if remaining > 0 {
      InitAllBusyStep(env, link, remaining);
    } else {
      InitExhausted(env, link);
    }
  }

  /** One busy attempt of `InitAllBusy`, then the rest of the script. */
  lemma {:induction false} InitAllBusyStep(env: Env, link: Link, remaining: nat)
    requires remaining > 0 && BusyScript(link.outs, link.ins, remaining)
    ensures InitAttempts(env, link, remaining).result == Err(ConnInit(env.defaultTries, 1))
    decreases remaining, 0
  {
    BusyScriptShift(link.outs, link.ins, remaining);
    var next := InitStep(env, link, remaining);
    InitAllBusy(env, next, remaining - 1);
  }

  /** Scripts that answer `busy` attempts with 1 and the next with 0. */
  ghost predicate ReadyScript(outs: seq<Ack>, ins: seq<Reply>, busy: nat)
  {
    && BusyScript(outs, ins, busy)
    && |outs| > busy && outs[busy].Accepted?
    && |ins| > busy && OpenReply(ins[busy], 0)
  }

  lemma ReadyScriptShift(outs: seq<Ack>, ins: seq<Reply>, busy: nat)
    requires busy > 0 && ReadyScript(outs, ins, busy)
    ensures |outs| > 0 && outs[0].Accepted? && |ins| > 0 && OpenReply(ins[0], 1)
    ensures ReadyScript(outs[1..], ins[1..], busy - 1)
  {
    BusyScriptShift(outs, ins, busy);
    assert outs[1..][busy - 1] == outs[busy] && ins[1..][busy - 1] == ins[busy];
  }

  /** Replies of 1 followed, within the budget, by a reply of 0 succeed. */
  lemma {:induction false} InitBusyThenReady(env: Env, link: Link, remaining: nat, busy: nat)
    requires busy < remaining && ReadyScript(link.outs, link.ins, busy)
    ensures InitAttempts(env, link, remaining).result == Ok(())
    decreases busy, 1
  {
    if busy > 0 {
      InitBusyThenReadyStep(env, link, remaining, busy);
    } else {
      InitReady(env, link, remaining);
    }
  }

  /** One busy attempt of `InitBusyThenReady`, then the rest of the script. */
  lemma {:induction false} InitBusyThenReadyStep(env: Env, link: Link, remaining: nat, busy: nat)
    requires 0 < busy < remaining && ReadyScript(link.outs, link.ins, busy)
    ensures InitAttempts(env, link, remaining).result == Ok(())
    decreases busy, 0
  {
    ReadyScriptShift(link.outs, link.ins, busy);
    var next := InitStep(env, link, remaining);
    InitBusyThenReady(env, next, remaining - 1, busy - 1);
  }

  /** Any status other than 0 and 1 ends initialisation at once with
      `ConnInit { tries: 1, status_code }`. */
  lemma InitRejected(env: Env, link: Link, remaining: nat, status: Byte)
    requires remaining > 0 && status != 0 && status != 1
    requires |link.outs| > 0 && link.outs[0].Accepted?
    requires |link.ins| > 0 && OpenReply(link.ins[0], status)
    ensures InitAttempts(env, link, remaining).result == Err(ConnInit(1, status))
  {
    var r := ReadDataUnchecked(env, link, OPEN_CONN_COMMAND);
    assert r.result == Ok(link.ins[0].bytes);
  }

  /** The errors `send_custom_read_command` can end with: a transport error,
      an empty reply, a failed re-initialisation, or exhaustion. */
  ghost predicate SendError(env: Env, e: CamError)
  {
    || InitError(env, e)
    || e == InvalidLength(1, 0)
    || e == SendCommand(1 + env.defaultTries, 0)
  }

  /** How one attempt of `send_custom_read_command` ends: with the call's
      outcome, or with the loop going round again on a later link state. */
  datatype Step = Done(out: Out<Bytes>) | Again(next: Link)

  /** One attempt: a chunked read, then the status-byte policy. */
  function Attempt(env: Env, link: Link, cmd: seq<I8>, action: StatusByteAction): (s: Step)
    ensures s.Done? ==> Follows(link, s.out.link) && s.out.link.requests == link.requests
    ensures s.Done? ==> CountChunked(s.out.link.exchanges) == CountChunked(link.exchanges) + 1
    ensures s.Done? && s.out.result.Ok? ==> |s.out.link.ins| < |link.ins|
    ensures s.Done? && s.out.result.Ok? && action != Ignore ==>
              |s.out.result.value| > 0 && s.out.result.value[0] != POWER_SAVE_STATUS
    ensures s.Done? && s.out.result.Ok? && action == Evaluate ==> s.out.result.value[0] in {0, 1}
    ensures s.Done? && s.out.result.Err? ==> SendError(env, s.out.result.error)
    ensures s.Done? && s.out.result.Panic? ==> s.out.result.site == OpenConnReplyEmpty
    ensures s.Again? ==> action != Ignore && Follows(link, s.next) && s.next.requests == link.requests
    ensures s.Again? ==> CountChunked(s.next.exchanges) == CountChunked(link.exchanges) + 1
  {
    var r := ReadData(env, link, cmd);
    CountChunkedSnoc(link.exchanges, ChunkedRead(cmd));
    if action == Ignore || !r.result.Ok? then Done(r)
    else
      var buf := r.result.value;
      if |buf| == 0 then Done(Out(Err(InvalidLength(1, 0)), r.link))
      else if buf[0] == 0 || buf[0] == 1 then Done(r)
      else if buf[0] == POWER_SAVE_STATUS then
        var i := InitializeComm(env, r.link);
        FollowsTrans(link, r.link, i.link);
        CountChunkedNone(r.link.exchanges, i.link.exchanges);
        if !i.result.Ok? then Done(Out(i.result.Cast(), i.link))
        else Again(i.link)
      else if action == IgnoreButRetryIfPowerSaving then Done(r)
      else Again(r.link)
  }

  /** The loop of `send_custom_read_command` with `remaining` attempts left. */
  function Attempts(env: Env, link: Link, cmd: seq<I8>, action: StatusByteAction, remaining: nat): (o: Out<Bytes>)
    ensures Follows(link, o.link) && o.link.requests == link.requests
    ensures CountChunked(o.link.exchanges) <= CountChunked(link.exchanges) + remaining
    ensures o.result.Ok? ==> |o.link.ins| < |link.ins|
    ensures o.result.Ok? && action != Ignore ==>
              |o.result.value| > 0 && o.result.value[0] != POWER_SAVE_STATUS
    ensures o.result.Ok? && action == Evaluate ==> o.result.value[0] in {0, 1}
    ensures o.result.Err? ==> SendError(env, o.result.error)
    ensures o.result.Panic? ==> o.result.site == OpenConnReplyEmpty
    decreases remaining
  {
    if remaining == 0 then Out(Err(SendCommand(1 + env.defaultTries, 0)), link)
    else match Attempt(env, link, cmd, action)
      case Done(o) => o
      case Again(next) =>
        var o := Attempts(env, next, cmd, action, remaining - 1);
        FollowsTrans(link, next, o.link);
        o
  }

  /** `send_custom_read_command`: at most `1 + default_tries` chunked reads.
      `Ignore` hands back the first read's result untouched; otherwise a
      transport error or an empty reply ends the call, status 0 or 1 succeeds,
      255 re-initialises the connection and spends the attempt, any other
      status is returned under `IgnoreButRetryIfPowerSaving` and retried under
      `Evaluate`. Each call is logged with its result. */
  function SendCustomReadCommand(env: Env, link: Link, cmd: seq<I8>, action: StatusByteAction): (o: Out<Bytes>)
    ensures Follows(link, o.link)
    ensures o.link.requests == link.requests + [Request(cmd, o.result)]
    ensures CountChunked(o.link.exchanges) <= CountChunked(link.exchanges) + 1 + env.defaultTries
    ensures action == Ignore ==> o.result == ReadData(env, link, cmd).result
    ensures o.result.Ok? ==> |o.link.ins| < |link.ins|
    ensures o.result.Ok? && action != Ignore ==>
              |o.result.value| > 0 && o.result.value[0] != POWER_SAVE_STATUS
    ensures o.result.Ok? && action == Evaluate ==> o.result.value[0] in {0, 1}
    ensures o.result.Err? ==> SendError(env, o.result.error)
    ensures o.result.Panic? ==> o.result.site == OpenConnReplyEmpty
  {
    var a := Attempts(env, link, cmd, action, 1 + env.defaultTries);
    Out(a.result, a.link.(requests := a.link.requests + [Request(cmd, a.result)]))
  }

  /** A reply chunk that is a whole trailer-terminated response whose status
      byte asks for a retry (2, 3 or an unknown value). */
  ghost predicate RetryChunk(b: Bytes, checkInt: I32)
  {
    |b| > CSW_SIZE && IsMsgCsw(b, checkInt) && b[0] != 0 && b[0] != 1 && b[0] != POWER_SAVE_STATUS
  }

  /** The next `n` replies each answer an `Evaluate` attempt with a retry
      status, the first checked against `rand(k)`, the next against
      `rand(k + 1)`, and so on. */
  ghost predicate RetryReplies(env: Env, ins: seq<Reply>, outs: seq<Ack>, k: nat, n: nat)
    decreases n
  {
    n == 0
    || (&& |ins| > 0 && |outs| > 0 && outs[0].Accepted? && ins[0].Data?
        && RetryChunk(ins[0].bytes, env.rand(k))
        && RetryReplies(env, ins[1..], outs[1..], k + 1, n - 1))
  }

  ghost predicate RetryScript(env: Env, link: Link, n: nat)
  {
    RetryReplies(env, link.ins, link.outs, |link.exchanges|, n)
  }

  /** The element-wise reading of `RetryReplies`. */
  lemma {:induction false} RetryRepliesOfAll(env: Env, ins: seq<Reply>, outs: seq<Ack>, k: nat, n: nat)
    requires |ins| >= n && |outs| >= n
    requires forall i :: 0 <= i < n ==>
               outs[i].Accepted? && ins[i].Data? && RetryChunk(ins[i].bytes, env.rand(k + i))
    ensures RetryReplies(env, ins, outs, k, n)
    decreases n
  {
    if n > 0 {
      assert RetryChunk(ins[0].bytes, env.rand(k + 0));
      forall i | 0 <= i < n - 1
        ensures outs[1..][i].Accepted? && ins[1..][i].Data? && RetryChunk(ins[1..][i].bytes, env.rand(k + 1 + i))
      {
        assert ins[1..][i] == ins[i + 1] && outs[1..][i] == outs[i + 1] && k + 1 + i == k + (i + 1);
      }
      RetryRepliesOfAll(env, ins[1..], outs[1..], k + 1, n - 1);
    }
  }

  /** Under `Evaluate`, a read whose status byte asks for a retry spends one
      attempt and leaves the rest to the next read. */
  lemma AttemptRetries(env: Env, link: Link, cmd: seq<I8>, n: nat) returns (next: Link)
    requires n > 0 && RetryScript(env, link, n)
    ensures RetryScript(env, next, n - 1)
    ensures Attempt(env, link, cmd, Evaluate) == Again(next)
  {
    var reply := link.ins[0].bytes;
    ReadDataSingle(env, link, cmd, reply);
    var r := ReadData(env, link, cmd);
    assert r.result.value[0] == reply[0];
    next := r.link;
  }

  /** Under `Evaluate`, a device that answers every attempt with a retry
      status exhausts the budget: `SendCommand { tries: 1 + default_tries,
      status_code: 0 }`. */
  lemma {:induction false} AttemptsExhausted(env: Env, link: Link, cmd: seq<I8>, remaining: nat)
    requires RetryScript(env, link, remaining)
    ensures Attempts(env, link, cmd, Evaluate, remaining).result == Err(SendCommand(1 + env.defaultTries, 0))
    decreases remaining
  {
    if remaining > 0 {
      var next := AttemptRetries(env, link, cmd, remaining);
      AttemptsExhausted(env, next, cmd, remaining - 1);
    }
  }

  /** With the default three retries, four replies of status 3 give
      `SendCommand { tries: 4, status_code: 0 }`. */
  lemma FourRetriesExhaust(env: Env, link: Link, cmd: seq<I8>)
    requires env.defaultTries == 3
    requires |link.outs| >= 4 && |link.ins| >= 4
    requires forall i :: 0 <= i < 4 ==>
               link.outs[i].Accepted? && link.ins[i].Data?
               && |link.ins[i].bytes| > CSW_SIZE && link.ins[i].bytes[0] == 3
               && IsMsgCsw(link.ins[i].bytes, env.rand(|link.exchanges| + i))
    ensures SendCustomReadCommand(env, link, cmd, Evaluate).result == Err(SendCommand(4, 0))
  {
    RetryRepliesOfAll(env, link.ins, link.outs, |link.exchanges|, 4);
    AttemptsExhausted(env, link, cmd, 4);
  }

  /** A read answered with status 0 or 1 ends the call with that read, under
      every action. */
  lemma AttemptAccepted(env: Env, link: Link, cmd: seq<I8>, action: StatusByteAction, reply: Bytes)
    requires |link.outs| > 0 && link.outs[0].Accepted? && |link.ins| > 0 && link.ins[0] == Data(reply)
    requires |reply| > CSW_SIZE && reply[0] in {0, 1} && IsMsgCsw(reply, NextCheck(env, link))
    ensures Attempt(env, link, cmd, action) == Done(ReadData(env, link, cmd))
    ensures ReadData(env, link, cmd).result == Ok(reply[..|reply| - CSW_SIZE])
  {
    ReadDataSingle(env, link, cmd, reply);
    assert ReadData(env, link, cmd).result.value[0] == reply[0];
  }

  /** A read answered with status 255 re-runs connection initialisation; when
      the device then accepts the connection, the attempt is spent and the
      loop goes round again. */
  lemma PowerSaveReinit(env: Env, link: Link, cmd: seq<I8>, action: StatusByteAction,
                        first: Bytes, open: Bytes) returns (next: Link)
    requires action != Ignore && env.defaultTries >= 1
    requires |link.outs| >= 2 && link.outs[0].Accepted? && link.outs[1].Accepted?
    requires |link.ins| >= 2 && link.ins[0] == Data(first) && link.ins[1] == Data(open)
    requires |first| > CSW_SIZE && first[0] == POWER_SAVE_STATUS && IsMsgCsw(first, NextCheck(env, link))
    requires |open| > 0 && open[0] == 0
    ensures Attempt(env, link, cmd, action) == Again(next)
    ensures next.ins == link.ins[2..] && next.outs == link.outs[2..]
    ensures next.exchanges == link.exchanges + [ChunkedRead(cmd), UncheckedRead(OPEN_CONN_COMMAND)]
  {
    ReadDataSingle(env, link, cmd, first);
    var r := ReadData(env, link, cmd);
    assert r.result.value[0] == POWER_SAVE_STATUS;
    ReadDataUncheckedSingle(env, r.link, OPEN_CONN_COMMAND, open);
    var u := ReadDataUnchecked(env, r.link, OPEN_CONN_COMMAND);
    assert InitializeComm(env, r.link) == Out(Ok(()), u.link);
    next := u.link;
  }

  /** An attempt that ends the call ends the loop with its outcome. */
  lemma AttemptsDone(env: Env, link: Link, cmd: seq<I8>, action: StatusByteAction, remaining: nat, o: Out<Bytes>)
    requires remaining > 0 && Attempt(env, link, cmd, action) == Done(o)
    ensures Attempts(env, link, cmd, action, remaining) == o
  {
  }

  /** A failed read ends an attempt with that failure, whatever the action;
      outside `Ignore`, an empty reply ends it with `InvalidLength {1, 0}`. */
  lemma AttemptStops(env: Env, link: Link, cmd: seq<I8>, action: StatusByteAction)
    ensures var r := ReadData(env, link, cmd);
            && (!r.result.Ok? ==> Attempt(env, link, cmd, action) == Done(r))
            && (action != Ignore && r.result == Ok([]) ==>
                  Attempt(env, link, cmd, action) == Done(Out(Err(InvalidLength(1, 0)), r.link)))
  {
  }

  /** `send_custom_read_command` stops at the first failed read or empty
      reply: no second attempt, the failure is the call's result, and the
      link is the one the read left, with the request logged. */
  lemma SendStops(env: Env, link: Link, cmd: seq<I8>, action: StatusByteAction)
    ensures var r := ReadData(env, link, cmd);
            var o := SendCustomReadCommand(env, link, cmd, action);
            && (!r.result.Ok? ==>
                  o.result == r.result && o.link == r.link.(requests := r.link.requests + [Request(cmd, r.result)]))
            && (action != Ignore && r.result == Ok([]) ==>
                  o.result == Err(InvalidLength(1, 0))
                  && o.link == r.link.(requests := r.link.requests + [Request(cmd, o.result)]))
  {
    var r := ReadData(env, link, cmd);
    AttemptStops(env, link, cmd, action);
    if !r.result.Ok? {
      AttemptsDone(env, link, cmd, action, 1 + env.defaultTries, r);
    } else if action != Ignore && r.result == Ok([]) {
      AttemptsDone(env, link, cmd, action, 1 + env.defaultTries, Out(Err(InvalidLength(1, 0)), r.link));
    }
  }

  /** An attempt that goes round again leaves the loop to the next link
      state with one attempt fewer. */
  lemma AttemptsAgain(env: Env, link: Link, cmd: seq<I8>, action: StatusByteAction, remaining: nat, next: Link)
    requires remaining > 0 && Attempt(env, link, cmd, action) == Again(next)
    ensures Attempts(env, link, cmd, action, remaining) == Attempts(env, next, cmd, action, remaining - 1)
  {
  }

  /** Power-save recovery: a reply of 255 re-runs connection initialisation
      (an unchecked open-connection exchange) and the next attempt reads
      again; a reply of 0 then succeeds. */
  lemma PowerSaveRecovery(env: Env, link: Link, cmd: seq<I8>, action: StatusByteAction,
                          first: Bytes, open: Bytes, second: Bytes)
    requires action != Ignore && env.defaultTries >= 1
    requires |link.outs| >= 3 && |link.ins| >= 3
    requires link.outs[0].Accepted? && link.outs[1].Accepted? && link.outs[2].Accepted?
    requires link.ins[0] == Data(first) && link.ins[1] == Data(open) && link.ins[2] == Data(second)
    requires |first| > CSW_SIZE && first[0] == POWER_SAVE_STATUS && IsMsgCsw(first, env.rand(|link.exchanges|))
    requires |open| > 0 && open[0] == 0
    requires |second| > CSW_SIZE && second[0] == 0 && IsMsgCsw(second, env.rand(|link.exchanges| + 2))
    ensures var o := SendCustomReadCommand(env, link, cmd, action);
            && o.result == Ok(second[..|second| - CSW_SIZE])
            && o.link.exchanges == link.exchanges
                 + [ChunkedRead(cmd), UncheckedRead(OPEN_CONN_COMMAND), ChunkedRead(cmd)]
  {
    var next := PowerSaveReinit(env, link, cmd, action, first, open);
    AttemptAccepted(env, next, cmd, action, second);
    var r := ReadData(env, next, cmd);
    AttemptsDone(env, next, cmd, action, env.defaultTries, r);
    AttemptsAgain(env, link, cmd, action, 1 + env.defaultTries, next);
  }

  /** Under `IgnoreButRetryIfPowerSaving`, a reply whose status is anything but
      255 is returned as it came. */
  lemma PowerSaveOnlyRetried(env: Env, link: Link, cmd: seq<I8>, reply: Bytes)
    requires |link.outs| > 0 && link.outs[0].Accepted? && |link.ins| > 0 && link.ins[0] == Data(reply)
    requires |reply| > CSW_SIZE && reply[0] != POWER_SAVE_STATUS && IsMsgCsw(reply, NextCheck(env, link))
    ensures SendCustomReadCommand(env, link, cmd, IgnoreButRetryIfPowerSaving).result
         == Ok(reply[..|reply| - CSW_SIZE])
  {
    ReadDataSingle(env, link, cmd, reply);
  }

  /** The keepalive header: the 3-byte keepalive opcode still announces an
      opcode length of 16, asks for at most 64 bytes, and is zero-padded. */
  function KeepaliveHeader(checkInt: I32): (h: Bytes)
    ensures |h| == HEADER_SIZE && h[14] == 16
    ensures h[8..12] == [64, 0, 0, 0] && h[12] == READ_DIRECTION
    ensures h[15..18] == [122, 3, 255]
    ensures forall i :: 18 <= i < HEADER_SIZE ==> h[i] == 0
  {
    var h := MakeCmdHeader(KEEP_ALIVE_COMMAND, KEEPALIVE_RX_BUF_SIZE, true, checkInt);
    assert h[15] == AsU8(122) && h[16] == AsU8(3) && h[17] == AsU8(-1);
    h
  }

  /** `send_keepalive`: one header, one bulk read of at most 64 bytes; status
      byte 0 is success, an empty reply is `InvalidLength {1, 0}`, anything
      else is `Keepalive { status_code }`. */
  function SendKeepalive(env: Env, link: Link): (o: Out<()>)
    ensures Follows(link, o.link) && o.link.requests == link.requests
    ensures o.link.exchanges == link.exchanges + [KeepaliveRead]
    ensures o.link.sent == link.sent + [KeepaliveHeader(NextCheck(env, link))]
    ensures o.result.Ok? <==>
              && |link.outs| > 0 && link.outs[0].Accepted?
              && |link.ins| > 0 && link.ins[0].Data?
              && |link.ins[0].bytes| > 0 && link.ins[0].bytes[0] == 0
    ensures o.result.Err? && o.result.error.Keepalive? ==>
              |link.ins| > 0 && link.ins[0].Data? && |link.ins[0].bytes| > 0
              && o.result.error.statusCode == link.ins[0].bytes[0] != 0
    ensures |link.outs| > 0 && link.outs[0].Accepted? && |link.ins| > 0 && link.ins[0].Data? ==>
              var b := link.ins[0].bytes;
              && (|b| == 0 ==> o.result == Err(InvalidLength(1, 0)))
              && (|b| > 0 && b[0] != 0 ==> o.result == Err(Keepalive(b[0])))
    ensures !(|link.outs| > 0 && link.outs[0].Accepted?) ==> o.result.Err? && o.result.error.IsTransport()
    ensures |link.outs| > 0 && link.outs[0].Accepted? && !(|link.ins| > 0 && link.ins[0].Data?) ==>
              o.result.Err? && o.result.error.IsTransport()
    ensures !o.result.Panic?
  {
    var l := link.(exchanges := link.exchanges + [KeepaliveRead]);
    var h := BulkOut(l, KeepaliveHeader(NextCheck(env, link)));
    if !h.result.Ok? then Out(h.result.Cast(), h.link)
    else
      var i := BulkIn(h.link);
      if !i.result.Ok? then Out(i.result.Cast(), i.link)
      else
        var res := i.result.value;
        if |res| == 0 then Out(Err(InvalidLength(1, 0)), i.link)
        else if res[0] == 0 then Out(Ok(()), i.link)
        else Out(Err(Keepalive(res[0])), i.link)
  }
}
