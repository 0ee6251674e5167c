/** Whole sessions of a fresh client: one command, the lines the worker
    answers with, and what the caller, the event subscribers and the
    waiting list end up with. */
module Scenarios {
  import opened Wrappers
  import opened Envelopes
  import opened Ids
  import opened Routing
  import opened Bridge

  /** The final reply to the first command of a session. */
  const Ack: Response := Response(Some("1"), Some("success"), Some("i2c_write"), false, JNull)
  /** An intermediate reply to the first command. */
  const Progress: Response := Response(Some("1"), Some("success"), Some("i2c_write"), true, JNull)
  /** A reply for a transaction nobody is waiting for. */
  const Stray: Response := Response(Some("7"), Some("success"), Some("i2c_write"), false, JNull)
  /** An unsolicited message from the worker. */
  const Notice: Response := Response(Some("0"), Some("success"), Some("i3c_ibi_notification"), false, JNull)

  /** What the loop does with a stream of one line. */
  lemma OneLine(line: Line, id: string)
    ensures HaltIndex([line]) == if Halts(line) then 0 else 1
    ensures Events([line]) == EventsOf(line)
    ensures Delivered([line], id) == DeliveredBy(line, id)
  {
    assert [line][..0] == [];
  }

  /** What the loop does with a stream of two lines that do not halt it. */
  lemma TwoLines(a: Line, b: Line, id: string)
    requires !Halts(a) && !Halts(b)
    ensures HaltIndex([a, b]) == 2
    ensures Events([a, b]) == EventsOf(a) + EventsOf(b)
    ensures Delivered([a, b], id) == DeliveredBy(a, id) + DeliveredBy(b, id)
  {
    assert [a, b][..1] == [a];
    OneLine(a, id);
  }

  /** With no line read between the write and the registration, the loop
      reads the lines of `late` up to the first that throws. */
  lemma NoEarlyLines(late: seq<Line>)
    ensures LateRead([], late) == late[..HaltIndex(late)]
    ensures RouterReads([], late) == late[..HaltIndex(late)]
  {
    assert [][..0] + late[..HaltIndex(late)] == late[..HaltIndex(late)];
  }

  /** Nothing is pending in a fresh client, whatever it reads. */
  lemma NothingPending(lines: seq<Line>)
    ensures ExtendAll(map[], lines) == map[]
  {
  }

  /** The first command is sent with id "1"; its single final reply is
      handed back and the entry is removed. */
  method SingleReply() returns (client: BridgeClient, outcome: SendOutcome)
    ensures outcome == Returned([Ack])
    ensures client.stdin == [Command("1", "i2c_write", map[])]
    ensures client.events == [ResponseReceived(Ack)]
    ensures client.waitingList == map[]
  {
    client := new BridgeClient();
    var late := [Decoded(Ack)];
    OneLine(late[0], "1");
    NothingPending(late);
    assert late[..1] == late;
    NoEarlyLines(late);
    assert Delivered(late, "1") == [Ack];
    assert DecimalString(1) == "1";
    outcome := client.SendCommand("i2c_write", None, [], late);
  }

  /** Intermediate replies are collected with the final one, in the order
      they were read, and the caller resumes only at the final one. */
  method PromiseThenFinal() returns (client: BridgeClient, outcome: SendOutcome)
    ensures outcome == Returned([Progress, Ack])
    ensures client.events == [ResponseReceived(Progress), ResponseReceived(Ack)]
    ensures client.waitingList == map[]
  {
    client := new BridgeClient();
    var late := [Decoded(Progress), Decoded(Ack)];
    TwoLines(late[0], late[1], "1");
    NothingPending(late);
    assert late[..2] == late;
    NoEarlyLines(late);
    assert Delivered(late, "1") == [Progress, Ack];
    assert [Progress, Ack][1..] == [Ack];
    assert FirstFinal([Progress, Ack]) == Some(Ack);
    assert DecimalString(1) == "1";
    outcome := client.SendCommand("i2c_write", None, [], late);
  }

  /** A notification in the middle of a transaction is raised as an event
      and never joins the transaction's responses. */
  method NotificationInBetween() returns (client: BridgeClient, outcome: SendOutcome)
    ensures outcome == Returned([Ack])
    ensures client.events == [NotificationReceived(Notice), ResponseReceived(Ack)]
  {
    client := new BridgeClient();
    var late := [Decoded(Notice), Decoded(Ack)];
    TwoLines(late[0], late[1], "1");
    NothingPending(late);
    assert late[..2] == late;
    NoEarlyLines(late);
    assert Delivered(late, "1") == [Ack];
    assert DecimalString(1) == "1";
    outcome := client.SendCommand("i2c_write", None, [], late);
  }

  /** Only promises and then the end of the stream: the caller never
      resumes and the entry stays in the waiting list. */
  method EndOfStreamBeforeFinal() returns (client: BridgeClient, outcome: SendOutcome)
    ensures outcome == Hung
    ensures "1" in client.waitingList && client.waitingList["1"].responses == [Progress]
  {
    client := new BridgeClient();
    var late := [Decoded(Progress)];
    OneLine(late[0], "1");
    NothingPending(late);
    assert late[..1] == late;
    NoEarlyLines(late);
    assert Delivered(late, "1") == [Progress];
    assert DecimalString(1) == "1";
    outcome := client.SendCommand("i2c_write", None, [], late);
  }

  /** A line that is not JSON ends the read loop: the final reply behind it
      is never read and the caller never resumes. */
  method MalformedLineStopsReading() returns (client: BridgeClient, outcome: SendOutcome)
    ensures outcome == Hung
    ensures client.events == []
    ensures client.stopped
  {
    client := new BridgeClient();
    var late := [Malformed, Decoded(Ack)];
    assert late[..0] == [];
    assert HaltIndex(late) == 0;
    NothingPending([]);
    assert DecimalString(1) == "1";
    outcome := client.SendCommand("i2c_write", None, [], late);
  }

  /** The read loop is not restarted: once a malformed line has ended it,
      the next command's final reply is never read and its caller never
      resumes, although the reply was sent. */
  method CommandAfterLoopEnded() returns (client: BridgeClient, outcome: SendOutcome)
    ensures outcome == Hung
    ensures client.stopped && client.events == []
    ensures client.stdin == [Command("1", "i2c_write", map[])]
    ensures "1" in client.waitingList && client.waitingList["1"].responses == []
  {
    client := new BridgeClient();
    var _ := client.RunLoop([Malformed]);
    NothingPending([]);
    assert DecimalString(1) == "1";
    outcome := client.SendCommand("i2c_write", None, [], [Decoded(Ack)]);
  }

  /** As written: the worker answers before the entry is registered, the
      loop drops the reply as unknown, and the caller never resumes. */
  method LostFastReply() returns (client: BridgeClient, outcome: SendOutcome)
    ensures outcome == Hung
    ensures client.events == [ResponseReceived(Ack)]
    ensures "1" in client.waitingList && client.waitingList["1"].responses == []
  {
    client := new BridgeClient();
    var early := [Decoded(Ack)];
    OneLine(early[0], "1");
    NothingPending(early);
    assert early[..1] == early;
    assert DecimalString(1) == "1";
    outcome := client.SendCommand("i2c_write", None, early, []);
  }

  /** Registering before writing: the same fast reply reaches the caller. */
  method FastReplyKept() returns (client: BridgeClient, outcome: SendOutcome)
    ensures outcome == Returned([Ack])
    ensures client.waitingList == map[]
  {
    client := new BridgeClient();
    var replies := [Decoded(Ack)];
    OneLine(replies[0], "1");
    NothingPending(replies);
    assert replies[..1] == replies;
    assert DecimalString(1) == "1";
    outcome := client.SendCommandRegisteredFirst("i2c_write", None, replies);
  }

  /** A reply whose id is not pending raises its event and is dropped;
      the pending transaction gets only its own reply. */
  method StrayReplyDropped() returns (client: BridgeClient, outcome: SendOutcome)
    ensures outcome == Returned([Ack])
    ensures client.events == [ResponseReceived(Stray), ResponseReceived(Ack)]
    ensures client.waitingList == map[]
  {
    client := new BridgeClient();
    var late := [Decoded(Stray), Decoded(Ack)];
    TwoLines(late[0], late[1], "1");
    NothingPending(late);
    assert late[..2] == late;
    NoEarlyLines(late);
    assert Delivered(late, "1") == [Ack];
    assert DecimalString(1) == "1";
    outcome := client.SendCommand("i2c_write", None, [], late);
  }

  /** The first two commands of a session are numbered "1" and "2". */
  method SuccessiveIds() returns (first: Command, second: Command)
    ensures first.transactionId == "1" && second.transactionId == "2"
  {
    var client := new BridgeClient();
    first := client.Allocate("i2c_write", None);
    second := client.Allocate("i2c_read", None);
    assert DecimalString(1) == "1" && DecimalString(2) == "2";
  }
}
