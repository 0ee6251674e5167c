/** What the background read loop does with a stream of lines, stated as
    functions of the stream: where the loop stops, which events it raises and
    which responses it hands to each transaction, and when a transaction's
    list of responses holds its completing (non-promise) response. */
module Routing {
  import opened Wrappers
  import opened Envelopes

  /** The transaction id reserved for notifications. */
  const Sentinel: string := "0"

  /** A line whose handling throws out of the read loop: the deserialiser
      rejects it, or it has no `transaction_id`, so that `.Equals` is called
      on null. The loop is not restarted after either. */
  predicate Halts(line: Line)
    ensures Halts(line) ==> EventsOf(line) == []
    ensures line.NullLiteral? ==> !Halts(line)
  {
    line.Malformed? || (line.Decoded? && line.response.transactionId.None?)
  }

  /** The events one line raises: a notification for id "0", a raw response
      for any other id, nothing for a null line or a line that halts. */
  function EventsOf(line: Line): (ev: seq<ClientEvent>)
    ensures |ev| <= 1
    ensures ev == [] <==> !(line.Decoded? && line.response.transactionId.Some?)
    ensures ev != [] ==>
              && line.Decoded?
              && (ev[0] == NotificationReceived(line.response) <==> line.response.transactionId == Some(Sentinel))
              && (ev[0] == ResponseReceived(line.response) <==> line.response.transactionId != Some(Sentinel))
  {
    if line.Decoded? && line.response.transactionId.Some? then
      if line.response.transactionId.value == Sentinel then [NotificationReceived(line.response)]
      else [ResponseReceived(line.response)]
    else []
  }

  /** The events raised by a stream of lines, in stream order. */
  function Events(lines: seq<Line>): (events: seq<ClientEvent>)
    ensures |events| <= |lines|
  {
    if lines == [] then [] else Events(lines[..|lines| - 1]) + EventsOf(lines[|lines| - 1])
  }

  /** The response one line carries for transaction `id`; notifications are
      never handed to a transaction. */
  function DeliveredBy(line: Line, id: string): (rs: seq<Response>)
    ensures |rs| <= 1
    ensures forall r :: r in rs ==> line.Decoded? && r == line.response && r.transactionId == Some(id)
    ensures id == Sentinel ==> rs == []
    ensures id != Sentinel && line.Decoded? && line.response.transactionId == Some(id) ==> rs == [line.response]
  {
    if id != Sentinel && line.Decoded? && line.response.transactionId == Some(id) then [line.response]
    else []
  }

  /** The responses of a stream that belong to transaction `id`, in the order
      they were read. */
  function Delivered(lines: seq<Line>, id: string): (rs: seq<Response>)
    ensures |rs| <= |lines|
    ensures forall r :: r in rs ==> r.transactionId == Some(id)
    ensures id == Sentinel ==> rs == []
  {
    if lines == [] then [] else Delivered(lines[..|lines| - 1], id) + DeliveredBy(lines[|lines| - 1], id)
  }

  /** The response that completes a transaction: the first one that is not a
      promise. Later non-promise responses do not change it. */
  function FirstFinal(rs: seq<Response>): (f: Option<Response>)
    ensures f.Some? ==> f.value in rs && !f.value.isPromise
  {
    if rs == [] then None
    else if !rs[0].isPromise then Some(rs[0])
    else FirstFinal(rs[1..])
  }

  /** FirstFinal finds the first response that is not a promise, and finds
      none exactly when every response is a promise. */
  lemma {:induction false} FirstFinalIsFirst(rs: seq<Response>)
    ensures FirstFinal(rs).None? <==> forall i :: 0 <= i < |rs| ==> rs[i].isPromise
    ensures FirstFinal(rs).Some? ==>
              exists i :: 0 <= i < |rs| && rs[i] == FirstFinal(rs).value && !rs[i].isPromise &&
                          forall j :: 0 <= j < i ==> rs[j].isPromise
  {
    if rs != [] && rs[0].isPromise {
      FirstFinalIsFirst(rs[1..]);
      assert forall j :: 1 <= j < |rs| ==> rs[j] == rs[1..][j - 1];
      if FirstFinal(rs).Some? {
        var k :| 0 <= k < |rs[1..]| && rs[1..][k] == FirstFinal(rs).value && !rs[1..][k].isPromise &&
                 forall j :: 0 <= j < k ==> rs[1..][j].isPromise;
        assert rs[k + 1] == FirstFinal(rs).value;
      }
    }
  }

  /** How many lines the read loop handles before one of them halts it (all
      of them when none does). */
  function HaltIndex(lines: seq<Line>): (n: nat)
    ensures n <= |lines|
    ensures forall i :: 0 <= i < n ==> !Halts(lines[i])
    ensures n < |lines| ==> Halts(lines[n])
  {
    if lines == [] then 0
    else if Halts(lines[0]) then 0
    else
      var n := 1 + HaltIndex(lines[1..]);
      assert forall i :: 1 <= i < |lines| ==> lines[i] == lines[1..][i - 1];
      n
  }

  /** The lines of `late` that the loop still reads after reading `early`:
      none if a line of `early` halted it. */
  function LateRead(early: seq<Line>, late: seq<Line>): seq<Line> {
    if HaltIndex(early) < |early| then [] else late[..HaltIndex(late)]
  }

  /** All lines the loop reads from `early` followed by `late`. */
  function RouterReads(early: seq<Line>, late: seq<Line>): seq<Line> {
    early[..HaltIndex(early)] + LateRead(early, late)
  }

  /** Handing out responses commutes with splitting the stream. */
  lemma {:induction false} DeliveredConcat(a: seq<Line>, b: seq<Line>, id: string)
    ensures Delivered(a + b, id) == Delivered(a, id) + Delivered(b, id)
  {
    if b == [] {
      assert a + b == a;
    } else {
      var last := b[|b| - 1];
      assert (a + b)[..|a + b| - 1] == a + b[..|b| - 1];
      DeliveredConcat(a, b[..|b| - 1], id);
      SeqAssoc(Delivered(a, id), Delivered(b[..|b| - 1], id), DeliveredBy(last, id));
    }
  }

  /** Concatenation regroups freely; stated once so that proofs about
      streams split in two do not search for it. */
  lemma SeqAssoc<T>(a: seq<T>, b: seq<T>, c: seq<T>)
    ensures (a + b) + c == a + (b + c)
  {
  }

  /** Raising events commutes with splitting the stream. */
  lemma {:induction false} EventsConcat(a: seq<Line>, b: seq<Line>)
    ensures Events(a + b) == Events(a) + Events(b)
  {
    if b == [] {
      assert a + b == a;
    } else {
      var last := b[|b| - 1];
      assert (a + b)[..|a + b| - 1] == a + b[..|b| - 1];
      EventsConcat(a, b[..|b| - 1]);
      SeqAssoc(Events(a), Events(b[..|b| - 1]), EventsOf(last));
    }
  }

  /** Completion is decided by the earlier responses whenever they already
      hold a final one: later responses cannot complete a transaction twice. */
  lemma {:induction false} FirstFinalConcat(a: seq<Response>, b: seq<Response>)
    ensures FirstFinal(a + b) == if FirstFinal(a).Some? then FirstFinal(a) else FirstFinal(b)
  {
    if a == [] {
      assert a + b == b;
    } else {
      assert (a + b)[0] == a[0];
      assert (a + b)[1..] == a[1..] + b;
      FirstFinalConcat(a[1..], b);
    }
  }

  /** The loop over two pieces of a stream stops where it stops over the
      whole stream. */
  lemma {:induction false} HaltIndexConcat(a: seq<Line>, b: seq<Line>)
    ensures HaltIndex(a + b) == if HaltIndex(a) < |a| then HaltIndex(a) else |a| + HaltIndex(b)
  {
    if a == [] {
      assert a + b == b;
    } else {
      assert (a + b)[0] == a[0];
      assert (a + b)[1..] == a[1..] + b;
      HaltIndexConcat(a[1..], b);
    }
  }

  /** The halting index is the one position before which no line halts and
      at which one does (or the end). */
  lemma {:induction false} HaltIndexUnique(lines: seq<Line>, n: nat)
    requires n <= |lines|
    requires forall i :: 0 <= i < n ==> !Halts(lines[i])
    requires n < |lines| ==> Halts(lines[n])
    ensures HaltIndex(lines) == n
  {
    if n > 0 {
      assert forall i :: 0 <= i < n - 1 ==> lines[1..][i] == lines[i + 1];
      HaltIndexUnique(lines[1..], n - 1);
    }
  }

  /** Reading `early` and then `late` reads the prefix of the joined stream
      that the loop would read in one go. */
  lemma RouterReadsPrefix(early: seq<Line>, late: seq<Line>)
    ensures RouterReads(early, late) == (early + late)[..HaltIndex(early + late)]
  {
    HaltIndexConcat(early, late);
    if HaltIndex(early) == |early| {
      assert (early + late)[..|early| + HaltIndex(late)] == early + late[..HaltIndex(late)];
    }
  }

  /** Of the responses for `id` the loop reads from the joined stream, the
      ones read before the registration come first, then the ones read
      after it. A caller that registers only after `early` was read loses
      exactly the first part. */
  lemma {:induction false} MissedBeforeRegistration(early: seq<Line>, late: seq<Line>, id: string)
    ensures Delivered((early + late)[..HaltIndex(early + late)], id)
         == Delivered(early[..HaltIndex(early)], id) + Delivered(LateRead(early, late), id)
  {
    RouterReadsPrefix(early, late);
    DeliveredConcat(early[..HaltIndex(early)], LateRead(early, late), id);
  }
}
