/** The UDP endpoint: an object whose nonce table is updated in place, receiving into a
reused buffer. Its methods are proved against the run-level functions of `Replay`. */
module Protocol {
  import opened Bytes
  import opened Frame
  import opened Replay
  import opened Inertness

  const MAX_RECV_ATTEMPTS := 16
  const RECV_BUFFER_SIZE := 65535

  /** What the socket does next while a receive call waits on it. */
  datatype SocketEvent =
    | Datagram(bytes: seq<byte>, from: nat, now: U64)
    | Failed
    | TimedOut

  datatype RecvResult = Received(n: nat, from: nat) | IoError | Cancelled

  datatype RecvOutcome = RecvOutcome(result: RecvResult, table: Table, next: nat)

  /** What of a datagram lands in a buffer of `cap` bytes. */
  function Clip(bytes: seq<byte>, cap: nat): (r: seq<byte>)
    ensures |r| == if |bytes| <= cap then |bytes| else cap
    ensures r <= bytes
  {
    if |bytes| <= cap then bytes else bytes[..cap]
  }

  function ToArrival(e: SocketEvent, cap: nat): (a: Arrival)
    requires e.Datagram?
  {
    Arrival(Clip(e.bytes, cap), e.now)
  }

  /** One receive call that starts with event `i`: its result, the table it leaves and the
  first event it leaves untouched. */
  function RecvSpec(sign: Mac, t: Table, inbox: seq<SocketEvent>, i: nat, cap: nat): (o: RecvOutcome)
    requires i <= |inbox|
    ensures i <= o.next <= |inbox| && (i < |inbox| ==> i < o.next)
    ensures o.result.Received? ==> i < o.next && inbox[o.next - 1].Datagram?
    ensures o.result.Received? ==>
              MIN_MESSAGE_SIZE <= |Clip(inbox[o.next - 1].bytes, cap)| == o.result.n
    decreases |inbox| - i
  {
    if i == |inbox| then RecvOutcome(Cancelled, t, i)
    else match inbox[i]
      case Failed => RecvOutcome(IoError, t, i + 1)
      case TimedOut => RecvOutcome(Cancelled, t, i + 1)
      case Datagram(bytes, from, _) =>
        var (ok, t') := Receive(sign, t, ToArrival(inbox[i], cap));
        if ok then RecvOutcome(Received(|Clip(bytes, cap)|, from), t', i + 1)
        else RecvSpec(sign, t', inbox, i + 1, cap)
  }

  /** The table that event `j` finds if event `i` found `t`. */
  function TableBetween(sign: Mac, t: Table, inbox: seq<SocketEvent>, i: nat, j: nat, cap: nat): (r: Table)
    requires i <= j <= |inbox|
    decreases j - i
  {
    if i == j then t
    else if !inbox[i].Datagram? then TableBetween(sign, t, inbox, i + 1, j, cap)
    else TableBetween(sign, Receive(sign, t, ToArrival(inbox[i], cap)).1, inbox, i + 1, j, cap)
  }

  /** Event `j` is a datagram, and it is delivered or not as said. */
  predicate Decided(sign: Mac, t: Table, inbox: seq<SocketEvent>, i: nat, j: nat, cap: nat, delivered: bool)
    requires i <= j < |inbox|
  {
    inbox[j].Datagram? &&
    Receive(sign, TableBetween(sign, t, inbox, i, j, cap), ToArrival(inbox[j], cap)).0 == delivered
  }

  /** What the outcome of a receive call says about the events it used: all before the last are
  rejected datagrams, and the last one is the delivery, the error or the timeout that the
  result reports, or the events ran out. */
  ghost predicate Reports(sign: Mac, t: Table, inbox: seq<SocketEvent>, start: nat, cap: nat, r: RecvResult, next: nat)
    requires start <= next <= |inbox|
  {
    (forall j :: start <= j < next - 1 ==> Decided(sign, t, inbox, start, j, cap, false)) &&
    (r.Received? <==> start < next && Decided(sign, t, inbox, start, next - 1, cap, true)) &&
    (r.Received? ==> r.from == inbox[next - 1].from && r.n == |Clip(inbox[next - 1].bytes, cap)|) &&
    (r.IoError? <==> start < next && inbox[next - 1].Failed?) &&
    (r.Cancelled? <==>
       (start < next && inbox[next - 1].TimedOut?) ||
       (next == |inbox| && (start == next || Decided(sign, t, inbox, start, next - 1, cap, false))))
  }

  lemma {:induction false} RecvReports(sign: Mac, t: Table, inbox: seq<SocketEvent>, i: nat, cap: nat)
    requires i <= |inbox|
    ensures var o := RecvSpec(sign, t, inbox, i, cap);
            Reports(sign, t, inbox, i, cap, o.result, o.next) &&
            o.table == TableBetween(sign, t, inbox, i, o.next, cap)
    decreases |inbox| - i
  {
    hide Receive, Clip;
    if i < |inbox| && inbox[i].Datagram? {
      var (ok, t') := Receive(sign, t, ToArrival(inbox[i], cap));
      assert Decided(sign, t, inbox, i, i, cap, ok);
      if !ok {
        var o := RecvSpec(sign, t', inbox, i + 1, cap);
        RecvReports(sign, t', inbox, i + 1, cap);
        forall j, d | i < j < |inbox|
          ensures Decided(sign, t, inbox, i, j, cap, d) == Decided(sign, t', inbox, i + 1, j, cap, d)
        {
        }
      }
    }
  }

  /** The payloads delivered from event `i` on. */
  function PayloadsFrom(sign: Mac, t: Table, inbox: seq<SocketEvent>, i: nat, cap: nat): (ps: seq<seq<byte>>)
    requires i <= |inbox|
    decreases |inbox| - i
  {
    if i == |inbox| then []
    else if !inbox[i].Datagram? then PayloadsFrom(sign, t, inbox, i + 1, cap)
    else
      var (ok, t') := Receive(sign, t, ToArrival(inbox[i], cap));
      var later := PayloadsFrom(sign, t', inbox, i + 1, cap);
      if ok then [PayloadSlice(Clip(inbox[i].bytes, cap))] + later else later
  }

  /** The table after all events from `i` on. */
  function TableFrom(sign: Mac, t: Table, inbox: seq<SocketEvent>, i: nat, cap: nat): (r: Table)
    requires i <= |inbox|
    decreases |inbox| - i
  {
    if i == |inbox| then t
    else if !inbox[i].Datagram? then TableFrom(sign, t, inbox, i + 1, cap)
    else TableFrom(sign, Receive(sign, t, ToArrival(inbox[i], cap)).1, inbox, i + 1, cap)
  }

  lemma NothingLeft(sign: Mac, t: Table, inbox: seq<SocketEvent>, cap: nat)
    ensures PayloadsFrom(sign, t, inbox, |inbox|, cap) == [] && TableFrom(sign, t, inbox, |inbox|, cap) == t
  {
  }

  /** A receive call delivers the first delivery of the events it uses up, and nothing else. */
  lemma {:induction false} RecvTakesFirstDelivery(sign: Mac, t: Table, inbox: seq<SocketEvent>, i: nat, cap: nat)
    requires i <= |inbox|
    ensures var o := RecvSpec(sign, t, inbox, i, cap);
            PayloadsFrom(sign, t, inbox, i, cap) ==
            (if o.result.Received? then [PayloadSlice(Clip(inbox[o.next - 1].bytes, cap))] else []) +
            PayloadsFrom(sign, o.table, inbox, o.next, cap)
    ensures var o := RecvSpec(sign, t, inbox, i, cap);
            TableFrom(sign, t, inbox, i, cap) == TableFrom(sign, o.table, inbox, o.next, cap)
    decreases |inbox| - i
  {
    hide Receive, Clip;
    if i < |inbox| && inbox[i].Datagram? {
      var (ok, t') := Receive(sign, t, ToArrival(inbox[i], cap));
      if !ok {
        RecvTakesFirstDelivery(sign, t', inbox, i + 1, cap);
      }
    }
  }

  // ----- The loop's deliveries are those of the run of its datagrams -----

  function Arrivals(inbox: seq<SocketEvent>, i: nat, cap: nat): (run: seq<Arrival>)
    requires i <= |inbox|
    decreases |inbox| - i
  {
    if i == |inbox| then []
    else if inbox[i].Datagram? then [ToArrival(inbox[i], cap)] + Arrivals(inbox, i + 1, cap)
    else Arrivals(inbox, i + 1, cap)
  }

  function PayloadOf(d: Delivery): (p: seq<byte>)
  {
    if |d.arrival.bytes| >= MIN_MESSAGE_SIZE then PayloadSlice(d.arrival.bytes) else []
  }

  function Payloads(ds: seq<Delivery>): (ps: seq<seq<byte>>)
  {
    if ds == [] then [] else [PayloadOf(ds[0])] + Payloads(ds[1..])
  }

  /** Socket errors and cancelled waits lose and change nothing: the payloads are those of the
  run that consists of the datagrams alone. */
  lemma {:induction false} LoopDeliversTheRun(sign: Mac, t: Table, inbox: seq<SocketEvent>, i: nat, cap: nat)
    requires i <= |inbox|
    ensures PayloadsFrom(sign, t, inbox, i, cap) == Payloads(Deliveries(sign, t, Arrivals(inbox, i, cap)))
    decreases |inbox| - i
  {
    hide Receive;
    if i < |inbox| {
      if inbox[i].Datagram? {
        var run := Arrivals(inbox, i, cap);
        var (ok, t') := Receive(sign, t, run[0]);
        assert run[1..] == Arrivals(inbox, i + 1, cap);
        LoopDeliversTheRun(sign, t', inbox, i + 1, cap);
        var later := Deliveries(sign, t', run[1..]);
        if ok {
          assert Deliveries(sign, t, run) == [Delivery(run[0], t')] + later;
          assert ([Delivery(run[0], t')] + later)[1..] == later;
        } else {
          assert Deliveries(sign, t, run) == later;
        }
      } else {
        LoopDeliversTheRun(sign, t, inbox, i + 1, cap);
      }
    }
  }

  class UdpProtocol {
    const sign: Mac
    var nonces: Table

    constructor (sign: Mac)
      ensures this.sign == sign && nonces == []
    {
      this.sign := sign;
      nonces := [];
    }

    /** `marshal`, with the clock reading, the random nonce and the serialized payload given. */
    method Marshal(now: U64, nonce: Nonce, payload: seq<byte>) returns (frame: seq<byte>)
      ensures frame == Frame.Marshal(sign, Message(now, nonce, payload))
      ensures |frame| == 48 + |payload| && frame[|frame| - 32..] == sign(frame[..|frame| - 32])
    {
      MarshalLayout(sign, Message(now, nonce, payload));
      var header := new byte[HEADER_SIZE](_ => 0);
      var time := ToBigEndian(now, 8);
      forall i | 0 <= i < 8 {
        header[i] := time[i];
      }
      forall i | 8 <= i < HEADER_SIZE {
        header[i] := nonce[i - 8];
      }
      assert header[..] == HeaderOf(Message(now, nonce, payload));
      var signed := header[..] + payload;
      var sig := sign(signed);
      frame := signed + sig;
    }

    method CheckNonce(header: Header, now: U64) returns (ok: bool)
      modifies this`nonces
      ensures (ok, nonces) == Replay.CheckNonce(old(nonces), header, now)
    {
      var ts := Timestamp(header);
      var nonce := Hex(NonceOf(header));
      if AbsDiff(ts, now) > REPLAY_WINDOW_SECS {
        return false;
      }
      var cutoff := SaturatingSub(now, REPLAY_WINDOW_SECS);
      nonces := Retain(nonces, cutoff);
      if Contains(nonces, nonce) {
        return false;
      }
      nonces := nonces + [Entry(nonce, now)];
      return true;
    }

    /** The body of the receive loop for one datagram: into the buffer, sliced, verified and
    checked. Only the first `n` bytes of the reused buffer matter. */
    method TakeDatagram(buf: array<byte>, bytes: seq<byte>, now: U64) returns (ok: bool, n: nat)
      modifies this`nonces, buf
      ensures n <= buf.Length && buf[..n] == Clip(bytes, buf.Length)
      ensures (ok, nonces) == Receive(sign, old(nonces), Arrival(Clip(bytes, buf.Length), now))
    {
      n := if |bytes| <= buf.Length then |bytes| else buf.Length;
      forall i | 0 <= i < n {
        buf[i] := bytes[i];
      }
      ghost var landed := Clip(bytes, buf.Length);
      assert buf[..n] == landed;
      if n < MIN_MESSAGE_SIZE {
        return false, n;
      }
      var header := buf[..HEADER_SIZE];
      var payload := buf[HEADER_SIZE..n - HMAC_SIZE];
      var sig := buf[n - HMAC_SIZE..n];
      assert header == HeaderSlice(landed) && payload == PayloadSlice(landed) && sig == TagSlice(landed);
      if sign(header + payload) != sig {
        return false, n;
      }
      ok := CheckNonce(header, now);
    }

    /** `recv`: reads into `buf` until a datagram is delivered, the socket fails or the caller
    gives up. Going over the attempt limit only gives way to other tasks. */
    method Recv(buf: array<byte>, inbox: seq<SocketEvent>, start: nat) returns (r: RecvResult, next: nat)
      requires start <= |inbox|
      modifies this`nonces, buf
      ensures RecvOutcome(r, nonces, next) == RecvSpec(sign, old(nonces), inbox, start, buf.Length)
      ensures Reports(sign, old(nonces), inbox, start, buf.Length, r, next)
      ensures nonces == TableBetween(sign, old(nonces), inbox, start, next, buf.Length)
      ensures r.Received? ==> r.n <= buf.Length && buf[..r.n] == Clip(inbox[next - 1].bytes, buf.Length)
    {
      hide Receive;
      RecvReports(sign, nonces, inbox, start, buf.Length);
      var attempts := 0;
      next := start;
      while true
        invariant 0 <= attempts <= MAX_RECV_ATTEMPTS
        invariant start <= next <= |inbox|
        invariant RecvSpec(sign, nonces, inbox, next, buf.Length) == RecvSpec(sign, old(nonces), inbox, start, buf.Length)
        decreases |inbox| - next
      {
        attempts := attempts + 1;
        if attempts > MAX_RECV_ATTEMPTS {
          attempts := 0;
        }
        if next == |inbox| {
          return Cancelled, next;
        }
        var event := inbox[next];
        next := next + 1;
        match event {
          case Failed => return IoError, next;
          case TimedOut => return Cancelled, next;
          case Datagram(bytes, from, now) =>
            var ok, n := TakeDatagram(buf, bytes, now);
            if ok {
              return Received(n, from), next;
            }
        }
      }
    }

    /** `recv_loop` over all events: the payload slices it hands on, in order. */
    method RecvLoop(inbox: seq<SocketEvent>) returns (payloads: seq<seq<byte>>)
      modifies this`nonces
      ensures payloads == PayloadsFrom(sign, old(nonces), inbox, 0, RECV_BUFFER_SIZE)
      ensures nonces == TableFrom(sign, old(nonces), inbox, 0, RECV_BUFFER_SIZE)
    {
      hide Receive, RecvSpec, Clip, PayloadsFrom, TableFrom;
      var buf := new byte[RECV_BUFFER_SIZE](_ => 0);
      payloads := [];
      var i := 0;
      while i < |inbox|
        invariant 0 <= i <= |inbox|
        invariant PayloadsFrom(sign, old(nonces), inbox, 0, RECV_BUFFER_SIZE) == payloads + PayloadsFrom(sign, nonces, inbox, i, RECV_BUFFER_SIZE)
        invariant TableFrom(sign, old(nonces), inbox, 0, RECV_BUFFER_SIZE) == TableFrom(sign, nonces, inbox, i, RECV_BUFFER_SIZE)
        modifies this`nonces, buf
      {
        RecvTakesFirstDelivery(sign, nonces, inbox, i, RECV_BUFFER_SIZE);
        var r, next := Recv(buf, inbox, i);
        if r.Received? {
          var payload := buf[HEADER_SIZE..r.n - HMAC_SIZE];
          ghost var landed := buf[..r.n];
          assert landed == Clip(inbox[next - 1].bytes, RECV_BUFFER_SIZE);
          assert |landed| == r.n && landed[HEADER_SIZE..r.n - HMAC_SIZE] == payload;
          payloads := payloads + [payload];
        }
        i := next;
      }
      NothingLeft(sign, nonces, inbox, RECV_BUFFER_SIZE);
    }
  }
}
