/** Sender, network and receiver together: every run of a network that may lose, delay,
reorder and duplicate the frames of `marshal`, and carry noise that fails the MAC. */
module Network {
  import opened Bytes
  import opened Frame
  import opened Replay

  datatype Step =
    | Send(message: Message)               // a frame enters the network
    | Arrive(index: nat, now: U64)         // some frame sent before reaches the receiver (again)
    | Noise(bytes: seq<byte>, now: U64)    // anything else does

  datatype State = State(sent: seq<Message>, arrivals: seq<Arrival>)

  /** The next state. An arrival of a frame not sent yet, or noise that would authenticate,
  cannot happen and is skipped. */
  ghost function Next(sign: Mac, s: State, step: Step): (r: State)
  {
    match step
    case Send(m) => s.(sent := s.sent + [m])
    case Arrive(k, now) =>
      if k < |s.sent| then s.(arrivals := s.arrivals + [Arrival(Marshal(sign, s.sent[k]), now)]) else s
    case Noise(bytes, now) =>
      if Authentic(sign, bytes) then s else s.(arrivals := s.arrivals + [Arrival(bytes, now)])
  }

  /** The state after a whole run, from nothing sent. */
  ghost function Exec(sign: Mac, steps: seq<Step>): (s: State)
  {
    if steps == [] then State([], []) else Next(sign, Exec(sign, steps[..|steps| - 1]), steps[|steps| - 1])
  }

  /** Arrival `j` is the frame of message `m`. */
  ghost predicate Carries(sign: Mac, run: seq<Arrival>, j: nat, m: Message)
    requires j < |run|
  {
    run[j].bytes == Marshal(sign, m)
  }

  lemma CarriedMessage(sign: Mac, run: seq<Arrival>, j: nat, m: Message)
    requires j < |run| && Carries(sign, run, j, m)
    ensures Authentic(sign, run[j].bytes) && Unmarshal(run[j].bytes) == m
    ensures HasHeader(run[j], HeaderOf(m))
  {
    UnmarshalMarshal(sign, m);
    HeaderOfUnmarshal(run[j].bytes);
  }

  /** Every authentic arrival carries a message that was sent before it arrived. */
  lemma {:induction false} AuthenticWasSent(sign: Mac, steps: seq<Step>, j: nat) returns (m: Message)
    requires j < |Exec(sign, steps).arrivals| && Authentic(sign, Exec(sign, steps).arrivals[j].bytes)
    ensures m in Exec(sign, steps).sent && Carries(sign, Exec(sign, steps).arrivals, j, m)
    ensures exists n :: 0 <= n < |steps| && steps[n] == Send(m) &&
                        |Exec(sign, steps[..n]).arrivals| <= j
  {
    hide Authentic;
    var before := steps[..|steps| - 1];
    var s, last := Exec(sign, before), steps[|steps| - 1];
    if j < |s.arrivals| {
      m := AuthenticWasSent(sign, before, j);
      var n :| 0 <= n < |before| && before[n] == Send(m) && |Exec(sign, before[..n]).arrivals| <= j;
      assert before[..n] == steps[..n];
    } else {
      m := s.sent[last.index];
      var n := SentBy(sign, before, m);
      assert before[..n] == steps[..n];
      ArrivalsGrow(sign, before, n);
    }
  }

  lemma {:induction false} SentBy(sign: Mac, steps: seq<Step>, m: Message) returns (n: nat)
    requires m in Exec(sign, steps).sent
    ensures n < |steps| && steps[n] == Send(m)
  {
    var before := steps[..|steps| - 1];
    if m in Exec(sign, before).sent {
      n := SentBy(sign, before, m);
    } else {
      n := |steps| - 1;
    }
  }

  lemma {:induction false} ArrivalsGrow(sign: Mac, steps: seq<Step>, n: nat)
    requires n <= |steps|
    ensures |Exec(sign, steps[..n]).arrivals| <= |Exec(sign, steps).arrivals|
  {
    if n < |steps| {
      ArrivalsGrow(sign, steps[..|steps| - 1], n);
      assert steps[..|steps| - 1][..n] == steps[..n];
    } else {
      assert steps[..n] == steps;
    }
  }

  /** Whatever the network does, each delivery hands on the payload of a message sent earlier. */
  lemma DeliveredWasSent(sign: Mac, steps: seq<Step>, j: nat) returns (m: Message)
    requires j < |Exec(sign, steps).arrivals|
    requires Accepts(sign, Exec(sign, steps).arrivals, j)
    ensures |Exec(sign, steps).arrivals[j].bytes| >= MIN_MESSAGE_SIZE
    ensures PayloadSlice(Exec(sign, steps).arrivals[j].bytes) == m.payload
    ensures InWindow(m.time, Exec(sign, steps).arrivals[j].now)
    ensures exists n :: 0 <= n < |steps| && steps[n] == Send(m) &&
                        |Exec(sign, steps[..n]).arrivals| <= j
  {
    var run := Exec(sign, steps).arrivals;
    AcceptedIsChecked(sign, run, j);
    m := AuthenticWasSent(sign, steps, j);
    CarriedMessage(sign, run, j, m);
  }

  /** No arrival before `j` that was in the window carries the nonce of `m`. Arrivals outside
  the window leave no trace. */
  ghost predicate NonceUnseen(sign: Mac, run: seq<Arrival>, j: nat, m: Message)
    requires j <= |run|
  {
    forall i :: 0 <= i < j && Checked(sign, run[i]) ==> Unmarshal(run[i].bytes).nonce != m.nonce
  }

  /** The first in-window arrival of a nonce is delivered, whatever the clock did before. */
  lemma FirstArrivalIsDelivered(sign: Mac, run: seq<Arrival>, j: nat, m: Message)
    requires j < |run| && Carries(sign, run, j, m)
    requires InWindow(m.time, run[j].now) && NonceUnseen(sign, run, j, m)
    ensures Accepts(sign, run, j)
  {
    CarriedMessage(sign, run, j, m);
    AcceptIff(sign, run, j);
    if i :| Blocks(sign, run, i, j) {
      AcceptedIsChecked(sign, run, i);
      assert false;
    }
  }

  /** All messages of the run have different nonces. */
  ghost predicate NoncesDiffer(sent: seq<Message>)
  {
    forall k, l :: 0 <= k < l < |sent| ==> sent[k].nonce != sent[l].nonce
  }

  lemma CarriersShareNonce(sign: Mac, steps: seq<Step>, i: nat, m: Message)
    requires NoncesDiffer(Exec(sign, steps).sent) && m in Exec(sign, steps).sent
    requires i < |Exec(sign, steps).arrivals| && Authentic(sign, Exec(sign, steps).arrivals[i].bytes)
    requires Unmarshal(Exec(sign, steps).arrivals[i].bytes).nonce == m.nonce
    ensures Carries(sign, Exec(sign, steps).arrivals, i, m)
  {
    var m' := AuthenticWasSent(sign, steps, i);
    CarriedMessage(sign, Exec(sign, steps).arrivals, i, m');
  }

  /** No copy of `m` arrived in the window before `j`. */
  ghost predicate NoneInWindowBefore(sign: Mac, run: seq<Arrival>, j: nat, m: Message)
    requires j <= |run|
  {
    forall i :: 0 <= i < j && Carries(sign, run, i, m) ==> !InWindow(m.time, run[i].now)
  }

  lemma FirstCarrierIsUnseen(sign: Mac, steps: seq<Step>, j: nat, m: Message)
    requires NoncesDiffer(Exec(sign, steps).sent) && m in Exec(sign, steps).sent
    requires j < |Exec(sign, steps).arrivals| && NoneInWindowBefore(sign, Exec(sign, steps).arrivals, j, m)
    ensures NonceUnseen(sign, Exec(sign, steps).arrivals, j, m)
  {
    var run := Exec(sign, steps).arrivals;
    forall i | 0 <= i < j && Checked(sign, run[i])
      ensures Unmarshal(run[i].bytes).nonce != m.nonce
    {
      if Unmarshal(run[i].bytes).nonce == m.nonce {
        CarriersShareNonce(sign, steps, i, m);
        CarriedMessage(sign, run, i, m);
        assert false;
      }
    }
  }

  lemma OutsideWindowIsRejected(sign: Mac, run: seq<Arrival>, k: nat, m: Message)
    requires k < |run| && Carries(sign, run, k, m) && !InWindow(m.time, run[k].now)
    ensures !Accepts(sign, run, k)
  {
    CarriedMessage(sign, run, k, m);
  }

  /** Exactly once, end to end. With different nonces and a nondecreasing clock from 1 on, the
  first arrival of a sent message that is in the window is delivered, whatever copies came
  too early; and if the receiver's clock has then passed the timestamp, no other arrival of
  the message is ever delivered. */
  lemma DeliveredExactlyOnce(sign: Mac, steps: seq<Step>, j: nat, m: Message)
    requires var s := Exec(sign, steps);
             Monotone(s.arrivals) && ClockFrom(s.arrivals, 1) && NoncesDiffer(s.sent) && m in s.sent
    requires j < |Exec(sign, steps).arrivals| && Carries(sign, Exec(sign, steps).arrivals, j, m)
    requires InWindow(m.time, Exec(sign, steps).arrivals[j].now)
    requires NoneInWindowBefore(sign, Exec(sign, steps).arrivals, j, m)
    ensures Accepts(sign, Exec(sign, steps).arrivals, j)
    ensures m.time < Exec(sign, steps).arrivals[j].now ==>
              forall k :: 0 <= k < |Exec(sign, steps).arrivals| && k != j &&
                          Carries(sign, Exec(sign, steps).arrivals, k, m)
                          ==> !Accepts(sign, Exec(sign, steps).arrivals, k)
  {
    hide Accepts, Marshal;
    var run := Exec(sign, steps).arrivals;
    FirstCarrierIsUnseen(sign, steps, j, m);
    FirstArrivalIsDelivered(sign, run, j, m);
    if m.time < run[j].now {
      forall k | 0 <= k < |run| && k != j && Carries(sign, run, k, m)
        ensures !Accepts(sign, run, k)
      {
        if k < j {
          OutsideWindowIsRejected(sign, run, k, m);
        } else {
          CarriedMessage(sign, run, j, m);
          CarriedMessage(sign, run, k, m);
          HeaderRoundTrip(m);
          PastHeaderIsFinal(sign, run, j, k, HeaderOf(m));
        }
      }
    }
  }
}
