/** BridgeClient: the command/response correlator. Each `lock (waitingList)`
    block of the client is one atomic step here, and the background read loop
    is a loop over the lines it reads. */
module Bridge {
  import opened Wrappers
  import opened Envelopes
  import opened Ids
  import opened Routing

  /** A pending transaction: the command, the responses collected so far and
      the result of its TaskCompletionSource (None while unresolved). */
  datatype Entry = Entry(command: Command, responses: seq<Response>, done: Option<Response>)

  /** The dictionary exceptions the correlator can throw. */
  datatype ClientError =
    | DuplicateKey(id: string)           // Dictionary.Add on a key already present
    | KeyNotFound(id: string)            // the dictionary indexer on a missing key

  /** Where a caller's `await WaitFor(id)` stands; NotFound is the
      InvalidOperationException WaitFor throws for a missing id. */
  datatype WaitResult = NotFound | Suspended | Resumed(final: Response)

  /** What a call of SendCommand comes to: the list it returns, or an await
      that no line read so far resolves. */
  datatype SendOutcome = Returned(responses: seq<Response>) | Hung

  /** `paramsDict ?? new Dictionary<string, object>()` */
  function ParamsOrEmpty(params: Option<map<string, JsonValue>>): (p: map<string, JsonValue>)
    ensures params.None? ==> p == map[]
    ensures params.Some? ==> p == params.value
  {
    if params.Some? then params.value else map[]
  }

  /** The id was handed out by one of the first `counter` allocations. */
  ghost predicate Issued(id: string, counter: nat) {
    exists n :: 1 <= n <= counter && id == DecimalString(n)
  }

  /** A pending entry is keyed by its command's id, holds only responses for
      that id, and is completed exactly by its first non-promise response. */
  ghost predicate EntryValid(id: string, e: Entry, counter: nat) {
    && e.command.transactionId == id
    && Issued(id, counter)
    && (forall r :: r in e.responses ==> r.transactionId == Some(id))
    && e.done == FirstFinal(e.responses)
  }

  /** Every entry of the registry is well formed. */
  ghost predicate RegistryValid(w: map<string, Entry>, counter: nat) {
    forall id :: id in w ==> EntryValid(id, w[id], counter)
  }

  /** Every pending id differs from "0", so a notification never reaches a
      pending transaction. */
  lemma IssuedNeverSentinel(id: string, counter: nat)
    requires Issued(id, counter)
    ensures id != Sentinel
  {
    var n :| 1 <= n <= counter && id == DecimalString(n);
    IdNeverSentinel(n);
  }

  /** The next id differs from every id issued so far, so registering it can
      never meet a duplicate key. */
  lemma NextIdFresh(id: string, counter: nat)
    requires Issued(id, counter)
    ensures id != DecimalString(counter + 1)
  {
    var n :| 1 <= n <= counter && id == DecimalString(n);
    DecimalStringInjective(n, counter + 1);
  }

  /** An entry after responses for it have been read: they are appended in
      order, and the result is set by the first final one unless it was set
      already (TrySetResult on a completed source does nothing). */
  function Extend(e: Entry, rs: seq<Response>): (e': Entry)
    ensures e'.command == e.command && e'.responses == e.responses + rs
    ensures e.done.Some? ==> e'.done == e.done
  {
    Entry(e.command, e.responses + rs, if e.done.Some? then e.done else FirstFinal(rs))
  }

  /** The registry after the read loop has handled `lines`: each entry is
      extended by the responses those lines carry for its id; no key is added
      or removed. */
  function ExtendAll(w: map<string, Entry>, lines: seq<Line>): (w': map<string, Entry>)
    ensures w'.Keys == w.Keys
  {
    map id | id in w :: Extend(w[id], Delivered(lines, id))
  }

  lemma ExtendByNothing(e: Entry)
    ensures Extend(e, []) == e
  {
    assert e.responses + [] == e.responses;
  }

  /** Extending by two batches is extending by both at once; in particular a
      result once set stays set. */
  lemma ExtendConcat(e: Entry, a: seq<Response>, b: seq<Response>)
    ensures Extend(Extend(e, a), b) == Extend(e, a + b)
    ensures e.done.Some? ==> Extend(e, a + b).done == e.done
  {
    FirstFinalConcat(a, b);
    SeqAssoc(e.responses, a, b);
  }

  /** Adding responses for the entry's own id keeps it well formed. */
  lemma ExtendValid(id: string, e: Entry, rs: seq<Response>, counter: nat)
    requires EntryValid(id, e, counter)
    requires forall r :: r in rs ==> r.transactionId == Some(id)
    ensures EntryValid(id, Extend(e, rs), counter)
  {
    FirstFinalConcat(e.responses, rs);
  }

  /** Reading no lines leaves the registry as it is. */
  lemma ExtendAllByNothing(w: map<string, Entry>)
    ensures ExtendAll(w, []) == w
  {
    forall id | id in w ensures ExtendAll(w, [])[id] == w[id] {
      ExtendByNothing(w[id]);
    }
  }

  /** Reading a stream in two pieces has the effect of reading it in one:
      each transaction's list is its responses in stream order. */
  lemma ExtendAllConcat(w: map<string, Entry>, a: seq<Line>, b: seq<Line>)
    ensures ExtendAll(ExtendAll(w, a), b) == ExtendAll(w, a + b)
  {
    var once := ExtendAll(w, a);
    var twice := ExtendAll(once, b);
    var joined := ExtendAll(w, a + b);
    forall id | id in w ensures twice[id] == joined[id] {
      var ra, rb := Delivered(a, id), Delivered(b, id);
      assert once[id] == Extend(w[id], ra);
      assert twice[id] == Extend(Extend(w[id], ra), rb);
      ExtendConcat(w[id], ra, rb);
      DeliveredConcat(a, b, id);
    }
    assert twice.Keys == joined.Keys;
  }

  /** Reading after a registration extends the new entry by what the lines
      carry for it, and the other entries as if it were not there. */
  lemma ExtendAllRegistered(w: map<string, Entry>, id: string, e: Entry, lines: seq<Line>)
    requires id !in w
    ensures ExtendAll(w[id := e], lines) == ExtendAll(w, lines)[id := Extend(e, Delivered(lines, id))]
  {
  }

  /** Lines that carry nothing for any pending id leave the registry as it is. */
  lemma ExtendAllOrphans(w: map<string, Entry>, lines: seq<Line>)
    requires forall id :: id in w ==> Delivered(lines, id) == []
    ensures ExtendAll(w, lines) == w
  {
    forall id | id in w ensures ExtendAll(w, lines)[id] == w[id] {
      ExtendByNothing(w[id]);
    }
  }

  /** Reading lines keeps the registry well formed. */
  lemma ExtendAllValid(w: map<string, Entry>, lines: seq<Line>, counter: nat)
    requires RegistryValid(w, counter)
    ensures RegistryValid(ExtendAll(w, lines), counter)
  {
    forall id | id in w ensures EntryValid(id, ExtendAll(w, lines)[id], counter) {
      ExtendValid(id, w[id], Delivered(lines, id), counter);
    }
  }

  /** Removing the key of a registration just made gives back the registry
      as it was before. */
  lemma RemoveRegistered(w: map<string, Entry>, id: string, e: Entry)
    requires id !in w
    ensures w[id := e] - {id} == w
  {
  }

  /** The registry through SendCommand: the loop reads `a`, the command is
      registered, the loop reads `b`. The new entry holds what `b` carries
      for it; every other entry holds what `a` and `b` carry for it; and
      removing the new key leaves the registry as reading `a` and `b` alone
      would. */
  lemma ReadAroundRegistration(w0: map<string, Entry>, w1: map<string, Entry>, w2: map<string, Entry>,
                               w3: map<string, Entry>, cmd: Command, a: seq<Line>, b: seq<Line>)
    requires cmd.transactionId !in w0
    requires w1 == ExtendAll(w0, a)
    requires w2 == w1[cmd.transactionId := Entry(cmd, [], None)]
    requires w3 == ExtendAll(w2, b)
    ensures var got := Delivered(b, cmd.transactionId);
      && cmd.transactionId in w3
      && w3 == ExtendAll(w0, a + b)[cmd.transactionId := Entry(cmd, got, FirstFinal(got))]
      && w3 - {cmd.transactionId} == ExtendAll(w0, a + b)
  {
    var got := Delivered(b, cmd.transactionId);
    ExtendAllRegistered(w1, cmd.transactionId, Entry(cmd, [], None), b);
    ExtendAllConcat(w0, a, b);
    assert [] + got == got;
    RemoveRegistered(ExtendAll(w0, a + b), cmd.transactionId, Entry(cmd, got, FirstFinal(got)));
  }

  class BridgeClient {
    /** The last transaction id issued (0 before the first command). */
    var transactionId: nat
    /** Pending transactions by id. */
    var waitingList: map<string, Entry>
    /** The command lines written to the worker's standard input. */
    var stdin: seq<Command>
    /** Invocations of OnNotificationReceived and OnResponseReceived. */
    var events: seq<ClientEvent>
    /** The read loop's task has ended: a line threw out of it or the output
        stream ended. `StartAsync` launches it once and nothing restarts it. */
    var stopped: bool

    ghost predicate Valid()
      reads this
    {
      RegistryValid(waitingList, transactionId)
    }

    /** `new BridgeClient()` followed by a successful `StartAsync()`: the
        worker is running and its read loop has been launched. */
    constructor ()
      ensures Valid()
      ensures transactionId == 0 && waitingList == map[] && stdin == [] && events == [] && !stopped
    {
      transactionId := 0;
      waitingList := map[];
      stdin := [];
      events := [];
      stopped := false;
    }

    /** Increment the counter and build the command object with its id. */
    method Allocate(command: string, params: Option<map<string, JsonValue>>) returns (cmd: Command)
      requires Valid()
      modifies this
      ensures Valid()
      ensures transactionId == old(transactionId) + 1
      ensures cmd == Command(DecimalString(transactionId), command, ParamsOrEmpty(params))
      ensures cmd.transactionId != Sentinel && cmd.transactionId !in waitingList
      ensures Issued(cmd.transactionId, transactionId)
      ensures waitingList == old(waitingList) && stdin == old(stdin) && events == old(events)
      ensures stopped == old(stopped)
    {
      transactionId := transactionId + 1;
      cmd := Command(DecimalString(transactionId), command, ParamsOrEmpty(params));
      forall id | id in waitingList
        ensures EntryValid(id, waitingList[id], transactionId) && id != cmd.transactionId
      {
        assert EntryValid(id, waitingList[id], transactionId - 1);
        NextIdFresh(id, transactionId - 1);
        var n :| 1 <= n <= transactionId - 1 && id == DecimalString(n);
        assert 1 <= n <= transactionId;
      }
      IdNeverSentinel(transactionId);
    }

    /** Serialise the command and write it as one line to the worker. */
    method Write(cmd: Command)
      modifies this
      ensures stdin == old(stdin) + [cmd]
      ensures transactionId == old(transactionId) && waitingList == old(waitingList) && events == old(events)
      ensures stopped == old(stopped)
    {
      stdin := stdin + [cmd];
    }

    /** `waitingList.Add(id, (command, new List(), tcs))` under the lock. */
    method Register(cmd: Command) returns (r: Result<(), ClientError>)
      requires Valid()
      requires Issued(cmd.transactionId, transactionId)
      modifies this
      ensures Valid()
      ensures r.Err? <==> cmd.transactionId in old(waitingList)
      ensures r.Err? ==> r.error == DuplicateKey(cmd.transactionId) && waitingList == old(waitingList)
      ensures r.Ok? ==> waitingList == old(waitingList)[cmd.transactionId := Entry(cmd, [], None)]
      ensures transactionId == old(transactionId) && stdin == old(stdin) && events == old(events)
      ensures stopped == old(stopped)
    {
      if cmd.transactionId in waitingList {
        r := Err(DuplicateKey(cmd.transactionId));
      } else {
        waitingList := waitingList[cmd.transactionId := Entry(cmd, [], None)];
        r := Ok(());
      }
    }

    /** The locked lookup of WaitFor, then the await: a missing id throws,
        a pending one stays suspended until its result is set. */
    method WaitFor(id: string) returns (w: WaitResult)
      requires Valid()
      ensures w.NotFound? <==> id !in waitingList
      ensures w.Resumed? <==> id in waitingList && waitingList[id].done.Some?
      ensures w.Resumed? ==> FirstFinal(waitingList[id].responses) == Some(w.final) && !w.final.isPromise
    {
      if id !in waitingList {
        w := NotFound;
      } else if waitingList[id].done.None? {
        w := Suspended;
      } else {
        w := Resumed(waitingList[id].done.value);
      }
    }

    /** The locked read of the collected list and removal of the key. */
    method Take(id: string) returns (r: Result<seq<Response>, ClientError>)
      requires Valid()
      modifies this
      ensures Valid()
      ensures r.Ok? <==> id in old(waitingList)
      ensures r.Ok? ==> r.value == old(waitingList)[id].responses && waitingList == old(waitingList) - {id}
      ensures r.Err? ==> r.error == KeyNotFound(id) && waitingList == old(waitingList)
      ensures transactionId == old(transactionId) && stdin == old(stdin) && events == old(events)
      ensures stopped == old(stopped)
    {
      if id in waitingList {
        r := Ok(waitingList[id].responses);
        waitingList := waitingList - {id};
      } else {
        r := Err(KeyNotFound(id));
      }
    }

    /** The locked block of the read loop for a response with an id other
        than "0": append it to the matching entry and, when it is not a
        promise, try to set the entry's result; drop it when no entry matches. */
    method Correlate(r: Response)
      requires Valid()
      requires r.transactionId.Some? && r.transactionId.value != Sentinel
      modifies this
      ensures Valid()
      ensures waitingList == ExtendAll(old(waitingList), [Decoded(r)])
      ensures r.transactionId.value in old(waitingList) ==>
        var e := old(waitingList)[r.transactionId.value];
        && waitingList == old(waitingList)[r.transactionId.value := Extend(e, [r])]
        && waitingList[r.transactionId.value].responses == e.responses + [r]
        && waitingList[r.transactionId.value].done == if e.done.None? && !r.isPromise then Some(r) else e.done
      ensures r.transactionId.value !in old(waitingList) ==> waitingList == old(waitingList)
      ensures transactionId == old(transactionId) && stdin == old(stdin) && events == old(events)
      ensures stopped == old(stopped)
    {
      var id := r.transactionId.value;
      var w := waitingList;
      if id in w {
        var e := w[id];
        var done := e.done;
        if !r.isPromise && done.None? {
          done := Some(r);
        }
        AppendStep(w, r, done, transactionId);
        w := w[id := Entry(e.command, e.responses + [r], done)];
      } else {
        OrphanIsExtendAll(w, r);
      }
      waitingList := w;
    }

    /** The body of the read loop for one line. Returns false when the line
        throws out of the loop. A line whose id is not pending changes no
        entry. */
    method Route(line: Line) returns (keepReading: bool)
      requires Valid()
      modifies this
      ensures Valid()
      ensures keepReading == !Halts(line)
      ensures events == old(events) + EventsOf(line)
      ensures waitingList == ExtendAll(old(waitingList), [line])
      ensures !(line.Decoded? && line.response.transactionId.Some? &&
                line.response.transactionId.value in old(waitingList)) ==>
              waitingList == old(waitingList)
      ensures line.NullLiteral? ==> events == old(events) && waitingList == old(waitingList)
      ensures line.Decoded? && line.response.transactionId == Some(Sentinel) ==>
        events == old(events) + [NotificationReceived(line.response)] && waitingList == old(waitingList)
      ensures line.Decoded? && line.response.transactionId.Some? && line.response.transactionId.value != Sentinel ==>
        events == old(events) + [ResponseReceived(line.response)]
      ensures transactionId == old(transactionId) && stdin == old(stdin) && stopped == old(stopped)
    {
      match line
      case Malformed =>
        keepReading := false;
        ExtendAllOrphans(waitingList, [line]);
      case NullLiteral =>
        keepReading := true;
        ExtendAllOrphans(waitingList, [line]);
      case Decoded(r) =>
        if r.transactionId.None? {
          keepReading := false;
          ExtendAllOrphans(waitingList, [line]);
        } else if r.transactionId.value == Sentinel {
          events := events + [NotificationReceived(r)];
          keepReading := true;
          ExtendAllOrphans(waitingList, [line]);
        } else {
          events := events + [ResponseReceived(r)];
          Correlate(r);
          keepReading := true;
        }
    }

    /** ReadFromProcessStdOutAsync over the lines the worker writes, until
        a line throws. Once the loop's task has ended it reads nothing more. */
    method RunLoop(lines: seq<Line>) returns (consumed: nat)
      requires Valid()
      modifies this
      ensures Valid()
      ensures consumed == if old(stopped) then 0 else HaltIndex(lines)
      ensures stopped == (old(stopped) || consumed < |lines|)
      ensures events == old(events) + Events(lines[..consumed])
      ensures waitingList == ExtendAll(old(waitingList), lines[..consumed])
      ensures transactionId == old(transactionId) && stdin == old(stdin)
    {
      consumed := 0;
      ExtendAllByNothing(waitingList);
      if stopped {
        return;
      }
      var faulted := false;
      while consumed < |lines| && !faulted
        invariant Valid()
        invariant consumed <= |lines|
        invariant forall i :: 0 <= i < consumed ==> !Halts(lines[i])
        invariant faulted ==> consumed < |lines| && Halts(lines[consumed])
        invariant events == old(events) + Events(lines[..consumed])
        invariant waitingList == ExtendAll(old(waitingList), lines[..consumed])
        invariant transactionId == old(transactionId) && stdin == old(stdin) && !stopped
        decreases |lines| - consumed, if faulted then 0 else 1
      {
        var keepReading := Route(lines[consumed]);
        if keepReading {
          TakeOneMore(lines, consumed);
          ExtendAllConcat(old(waitingList), lines[..consumed], [lines[consumed]]);
          SeqAssoc(old(events), Events(lines[..consumed]), EventsOf(lines[consumed]));
          consumed := consumed + 1;
        } else {
          faulted := true;
        }
      }
      HaltIndexUnique(lines, consumed);
      stopped := faulted;
    }

    /** The loop's `while (!EndOfStream)` test failing: the worker closed its
        output, and the loop's task ends. */
    method EndOfStream()
      modifies this
      ensures stopped
      ensures transactionId == old(transactionId) && waitingList == old(waitingList)
      ensures stdin == old(stdin) && events == old(events)
    {
      stopped := true;
    }

    /** The tail of SendCommand: `await WaitFor(id)` and, once it resumes,
        the locked read of the collected list and removal of the key. */
    method Await(id: string) returns (outcome: SendOutcome)
      requires Valid()
      requires id in waitingList
      modifies this
      ensures Valid()
      ensures outcome == if old(waitingList)[id].done.Some? then Returned(old(waitingList)[id].responses) else Hung
      ensures waitingList == if outcome.Hung? then old(waitingList) else old(waitingList) - {id}
      ensures transactionId == old(transactionId) && stdin == old(stdin) && events == old(events)
      ensures stopped == old(stopped)
    {
      var w := WaitFor(id);
      if w.Resumed? {
        var taken := Take(id);
        outcome := Returned(taken.value);
      } else {
        outcome := Hung;
      }
    }

    /** SendCommand as written: the command line is written before the
        entry is registered. `early` are the lines the read loop handles in
        between, `late` those it handles after the registration and before
        the caller takes the list. The caller gets back exactly the
        responses for its id that the loop read after the registration, and
        only if one of them is final; otherwise its await never returns and
        the entry stays. A loop that has already ended reads nothing. */
    method SendCommand(command: string, params: Option<map<string, JsonValue>>, early: seq<Line>, late: seq<Line>)
      returns (outcome: SendOutcome)
      requires Valid()
      modifies this
      ensures Valid()
      ensures transactionId == old(transactionId) + 1
      ensures stopped == (old(stopped) || HaltIndex(early) < |early| || HaltIndex(late) < |late|)
      ensures var cmd := Command(DecimalString(transactionId), command, ParamsOrEmpty(params));
        var seen := if old(stopped) then [] else RouterReads(early, late);
        var got := if old(stopped) then [] else Delivered(LateRead(early, late), cmd.transactionId);
        && cmd.transactionId !in old(waitingList)
        && stdin == old(stdin) + [cmd]
        && events == old(events) + Events(seen)
        && outcome == (if FirstFinal(got).Some? then Returned(got) else Hung)
        && waitingList == if outcome.Hung?
             then ExtendAll(old(waitingList), seen)[cmd.transactionId := Entry(cmd, got, None)]
             else ExtendAll(old(waitingList), seen)
    {
      var cmd := Allocate(command, params);
      Write(cmd);
      ghost var wasStopped := stopped;
      ghost var written := waitingList;
      var n1 := RunLoop(early);
      ghost var readEarly := waitingList;
      var _ := Register(cmd);
      ghost var registered := waitingList;
      var n2 := RunLoop(late);
      SplitReads(wasStopped, early, late, n1, n2);
      SeqAssoc(old(events), Events(early[..n1]), Events(late[..n2]));
      ReadAroundRegistration(written, readEarly, registered, waitingList, cmd, early[..n1], late[..n2]);
      outcome := Await(cmd.transactionId);
    }

    /** SendCommand with the registration moved before the write: every
        response for the new id that the loop reads after the write reaches
        the caller. */
    method SendCommandRegisteredFirst(command: string, params: Option<map<string, JsonValue>>, replies: seq<Line>)
      returns (outcome: SendOutcome)
      requires Valid()
      modifies this
      ensures Valid()
      ensures transactionId == old(transactionId) + 1
      ensures stopped == (old(stopped) || HaltIndex(replies) < |replies|)
      ensures var cmd := Command(DecimalString(transactionId), command, ParamsOrEmpty(params));
        var seen := if old(stopped) then [] else replies[..HaltIndex(replies)];
        var got := Delivered(seen, cmd.transactionId);
        && cmd.transactionId !in old(waitingList)
        && stdin == old(stdin) + [cmd]
        && events == old(events) + Events(seen)
        && outcome == (if FirstFinal(got).Some? then Returned(got) else Hung)
        && waitingList == if outcome.Hung?
             then ExtendAll(old(waitingList), seen)[cmd.transactionId := Entry(cmd, got, None)]
             else ExtendAll(old(waitingList), seen)
    {
      var cmd := Allocate(command, params);
      ghost var unregistered := waitingList;
      ghost var wasStopped := stopped;
      var _ := Register(cmd);
      ghost var registered := waitingList;
      Write(cmd);
      var n := RunLoop(replies);
      ghost var seen := if wasStopped then [] else replies[..HaltIndex(replies)];
      assert replies[..n] == seen;
      ExtendAllByNothing(unregistered);
      assert [] + seen == seen;
      ReadAroundRegistration(unregistered, unregistered, registered, waitingList, cmd, [], seen);
      outcome := Await(cmd.transactionId);
    }
  }

  /** A prefix one line longer is the prefix followed by that line. */
  lemma TakeOneMore(lines: seq<Line>, k: nat)
    requires k < |lines|
    ensures lines[..k + 1] == lines[..k] + [lines[k]]
  {
  }

  /** The lines the loop reads before and after the registration, joined,
      are the lines it reads in all, and so are the events they raise; a
      loop that had already ended reads none. */
  lemma SplitReads(stopped: bool, early: seq<Line>, late: seq<Line>, n1: nat, n2: nat)
    requires n1 == if stopped then 0 else HaltIndex(early)
    requires n2 == if stopped || n1 < |early| then 0 else HaltIndex(late)
    ensures late[..n2] == if stopped then [] else LateRead(early, late)
    ensures early[..n1] + late[..n2] == if stopped then [] else RouterReads(early, late)
    ensures Events(early[..n1]) + Events(late[..n2]) == Events(early[..n1] + late[..n2])
  {
    EventsConcat(early[..n1], late[..n2]);
  }

  /** A response whose id is pending keeps every entry well formed. */
  lemma AppendKeepsValid(w: map<string, Entry>, r: Response, counter: nat)
    requires r.transactionId.Some? && r.transactionId.value in w
    requires RegistryValid(w, counter)
    ensures RegistryValid(w[r.transactionId.value := Extend(w[r.transactionId.value], [r])], counter)
  {
    var rid := r.transactionId.value;
    ExtendValid(rid, w[rid], [r], counter);
  }

  /** A response whose id is pending extends that entry and no other. */
  lemma AppendIsExtendAll(w: map<string, Entry>, r: Response)
    requires r.transactionId.Some? && r.transactionId.value != Sentinel && r.transactionId.value in w
    ensures w[r.transactionId.value := Extend(w[r.transactionId.value], [r])] == ExtendAll(w, [Decoded(r)])
  {
    var rid := r.transactionId.value;
    assert Delivered([Decoded(r)], rid) == [r];
    forall id | id in w && id != rid
      ensures w[id] == ExtendAll(w, [Decoded(r)])[id]
    {
      assert Delivered([Decoded(r)], id) == [];
      ExtendByNothing(w[id]);
    }
  }

  /** The entry the read loop writes back for a pending response is the
      registry's extension by that response, and it keeps the registry well
      formed. */
  lemma AppendStep(w: map<string, Entry>, r: Response, done: Option<Response>, counter: nat)
    requires r.transactionId.Some? && r.transactionId.value != Sentinel && r.transactionId.value in w
    requires RegistryValid(w, counter)
    requires var e := w[r.transactionId.value];
             done == if e.done.None? && !r.isPromise then Some(r) else e.done
    ensures var e := w[r.transactionId.value];
            && Entry(e.command, e.responses + [r], done) == Extend(e, [r])
            && w[r.transactionId.value := Extend(e, [r])] == ExtendAll(w, [Decoded(r)])
            && RegistryValid(w[r.transactionId.value := Extend(e, [r])], counter)
  {
    AppendKeepsValid(w, r, counter);
    AppendIsExtendAll(w, r);
  }

  /** A response whose id is not pending changes no entry. */
  lemma OrphanIsExtendAll(w: map<string, Entry>, r: Response)
    requires r.transactionId.Some? && r.transactionId.value !in w
    ensures ExtendAll(w, [Decoded(r)]) == w
  {
    forall id | id in w ensures Delivered([Decoded(r)], id) == [] {
      assert [Decoded(r)][..0] == [];
    }
    ExtendAllOrphans(w, [Decoded(r)]);
  }
}
