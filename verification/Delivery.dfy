/** Result delivery in the agent: publishing through a transport that may refuse any
    message, with a bounded buffer as fallback and a periodic replay of the buffer. */
module Delivery {
  import opened Options

  type Bytes = seq<bv8>

  datatype Message = Message(topic: string, data: Bytes)

  function TotalSize(messages: seq<Message>): nat {
    if messages == [] then 0
    else TotalSize(messages[..|messages| - 1]) + |messages[|messages| - 1].data|
  }

  lemma TotalSizeSnoc(messages: seq<Message>, m: Message)
    ensures TotalSize(messages + [m]) == TotalSize(messages) + |m.data|
  {
    assert (messages + [m])[..|messages|] == messages;
  }

  lemma ConcatSnoc<T>(a: seq<T>, b: seq<T>, x: T)
    ensures (a + b) + [x] == a + (b + [x])
  {
  }

  /** The transport: every publish may succeed or fail. `outcomes` records the answers. */
  class Publisher {
    var acknowledged: seq<Message>
    var outcomes: seq<bool>

    constructor ()
      ensures acknowledged == [] && outcomes == []
    {
      acknowledged, outcomes := [], [];
    }

    method Publish(topic: string, data: Bytes) returns (ok: bool)
      modifies this
      ensures outcomes == old(outcomes) + [ok]
      ensures acknowledged == if ok then old(acknowledged) + [Message(topic, data)] else old(acknowledged)
    {
      ok := *;
      outcomes := outcomes + [ok];
      if ok {
        acknowledged := acknowledged + [Message(topic, data)];
      }
    }
  }

  /** The answer to the `i`-th publish of a drain; a missing answer is a failure. */
  predicate Succeeded(oks: seq<bool>, i: nat) {
    i < |oks| && oks[i]
  }

  /** The messages of a drain whose publish came out as `wanted`. */
  function Picked(messages: seq<Message>, oks: seq<bool>, wanted: bool): seq<Message> {
    if messages == [] then []
    else
      var n := |messages| - 1;
      Picked(messages[..n], oks, wanted) + if Succeeded(oks, n) == wanted then [messages[n]] else []
  }

  class MemoryBuffer {
    const maxSize: int
    var messages: seq<Message>
    var curSize: int

    ghost predicate Valid()
      reads this
    {
      curSize == TotalSize(messages)
    }

    constructor (maxSizeBytes: int)
      ensures Valid() && messages == [] && maxSize == maxSizeBytes
    {
      messages, maxSize, curSize := [], maxSizeBytes, 0;
    }

    /** Appends a message, or refuses it when the buffer has no room for it. */
    method Push(topic: string, data: Bytes) returns (ok: bool)
      requires Valid()
      modifies this
      ensures Valid()
      ensures ok <==> old(TotalSize(messages)) + |data| <= maxSize
      ensures messages == old(messages) + if ok then [Message(topic, data)] else []
    {
      if curSize + |data| > maxSize {
        return false;
      }
      var m := Message(topic, data);
      TotalSizeSnoc(messages, m);
      messages := messages + [m];
      curSize := curSize + |data|;
      return true;
    }

    /** Replays every message through the publisher and keeps those it refuses. */
    method Drain(handler: Publisher) returns (ghost oks: seq<bool>)
      requires Valid()
      modifies this, handler
      ensures Valid()
      ensures handler.outcomes == old(handler.outcomes) + oks && |oks| == |old(messages)|
      ensures messages == Picked(old(messages), oks, false)
      ensures handler.acknowledged == old(handler.acknowledged) + Picked(old(messages), oks, true)
    {
      var remaining, remainingSize := [], 0;
      ghost var start, base, acked := messages, handler.outcomes, handler.acknowledged;
      ghost var sent: seq<Message> := [];
      oks := [];
      for i := 0 to |messages|
        invariant messages == start && Progress(start, i, oks, remaining, sent)
        invariant handler.outcomes == base + oks && handler.acknowledged == acked + sent
        invariant remainingSize == TotalSize(remaining)
      {
        var m := messages[i];
        var ok := handler.Publish(m.topic, m.data);
        ProgressStep(start, i, oks, remaining, sent, ok);
        ConcatSnoc(base, oks, ok);
        oks := oks + [ok];
        if ok {
          ConcatSnoc(acked, sent, m);
          sent := sent + [m];
        } else {
          TotalSizeSnoc(remaining, m);
          remaining := remaining + [m];
          remainingSize := remainingSize + |m.data|;
        }
      }
      ProgressDone(start, oks, remaining, sent);
      messages := remaining;
      curSize := remainingSize;
    }

    method Len() returns (n: nat)
      ensures n == |messages|
    {
      n := |messages|;
    }
  }

  /** The picked messages among the first `j`. */
  function PickedUpTo(messages: seq<Message>, oks: seq<bool>, j: nat, wanted: bool): seq<Message>
    requires j <= |messages|
  {
    if j == 0 then []
    else PickedUpTo(messages, oks, j - 1, wanted) + if Succeeded(oks, j - 1) == wanted then [messages[j - 1]] else []
  }

  lemma {:induction false} PickedUpToIsPicked(messages: seq<Message>, oks: seq<bool>, j: nat, wanted: bool)
    requires j <= |messages|
    ensures PickedUpTo(messages, oks, j, wanted) == Picked(messages[..j], oks, wanted)
  {
    if j > 0 {
      PickedUpToIsPicked(messages, oks, j - 1, wanted);
      assert messages[..j][..j - 1] == messages[..j - 1];
    }
  }

  lemma {:induction false} PickedIgnoresLater(messages: seq<Message>, oks: seq<bool>, ok: bool, j: nat, wanted: bool)
    requires j <= |messages| && j <= |oks|
    ensures PickedUpTo(messages, oks + [ok], j, wanted) == PickedUpTo(messages, oks, j, wanted)
  {
    if j > 0 {
      PickedIgnoresLater(messages, oks, ok, j - 1, wanted);
    }
  }

  /** After `i` answers `oks`, `kept` and `sent` are the refused and accepted messages. */
  ghost predicate Progress(messages: seq<Message>, i: nat, oks: seq<bool>, kept: seq<Message>, sent: seq<Message>)
    requires i <= |messages|
  {
    |oks| == i && kept == PickedUpTo(messages, oks, i, false) && sent == PickedUpTo(messages, oks, i, true)
  }

  lemma ProgressStep(messages: seq<Message>, i: nat, oks: seq<bool>, kept: seq<Message>, sent: seq<Message>, ok: bool)
    requires i < |messages| && Progress(messages, i, oks, kept, sent)
    ensures if ok then Progress(messages, i + 1, oks + [ok], kept, sent + [messages[i]])
            else Progress(messages, i + 1, oks + [ok], kept + [messages[i]], sent)
  {
    PickedIgnoresLater(messages, oks, ok, i, true);
    PickedIgnoresLater(messages, oks, ok, i, false);
    assert kept + [] == kept && sent + [] == sent;
  }

  lemma ProgressDone(messages: seq<Message>, oks: seq<bool>, kept: seq<Message>, sent: seq<Message>)
    requires Progress(messages, |messages|, oks, kept, sent)
    ensures kept == Picked(messages, oks, false) && sent == Picked(messages, oks, true)
  {
    PickedUpToIsPicked(messages, oks, |messages|, false);
    PickedUpToIsPicked(messages, oks, |messages|, true);
    assert messages[..|messages|] == messages;
  }

  // ---------- The agent's steps ----------

  datatype DeliveryState = DeliveryState(
    submitted: seq<Message>,   // every marshalled result, in order
    delivered: seq<Message>,   // acknowledged by the transport
    buffered: seq<Message>,
    dropped: seq<Message>)

  const NOTHING := DeliveryState([], [], [], [])

  predicate NoRoom(buffered: seq<Message>, m: Message, maxSize: int) {
    TotalSize(buffered) + |m.data| > maxSize
  }

  /** A result is published; if that fails it is buffered, or dropped for lack of room. */
  function AfterResult(s: DeliveryState, maxSize: int, m: Message, ok: bool): DeliveryState {
    var t := s.(submitted := s.submitted + [m]);
    if ok then t.(delivered := s.delivered + [m])
    else if NoRoom(s.buffered, m, maxSize) then t.(dropped := s.dropped + [m])
    else t.(buffered := s.buffered + [m])
  }

  function AfterDrain(s: DeliveryState, oks: seq<bool>): DeliveryState {
    s.(delivered := s.delivered + Picked(s.buffered, oks, true), buffered := Picked(s.buffered, oks, false))
  }

  class Agent {
    const publisher: Publisher
    const buffer: MemoryBuffer
    ghost var submitted: seq<Message>
    ghost var dropped: seq<Message>

    ghost predicate Valid()
      reads this, buffer
    {
      buffer.Valid()
    }

    ghost function State(): DeliveryState
      reads this, publisher, buffer
    {
      DeliveryState(submitted, publisher.acknowledged, buffer.messages, dropped)
    }

    constructor (publisher: Publisher, buffer: MemoryBuffer)
      requires buffer.Valid()
      ensures this.publisher == publisher && this.buffer == buffer
      ensures Valid() && submitted == [] && dropped == []
    {
      this.publisher, this.buffer := publisher, buffer;
      submitted, dropped := [], [];
    }

    /** `data` is the marshalled result, or None when marshalling failed. */
    method PublishResult(testType: string, data: Option<Bytes>)
      requires Valid()
      modifies this, publisher, buffer
      ensures Valid()
      ensures data.None? ==> State() == old(State()) && publisher.outcomes == old(publisher.outcomes)
      ensures data.Some? ==>
        && |publisher.outcomes| == |old(publisher.outcomes)| + 1
        && State() == AfterResult(old(State()), buffer.maxSize,
                                  Message("netvantage." + testType + ".results", data.value),
                                  publisher.outcomes[|old(publisher.outcomes)|])
    {
      var topic := "netvantage." + testType + ".results";
      if data.None? {
        return;
      }
      submitted := submitted + [Message(topic, data.value)];
      var ok := publisher.Publish(topic, data.value);
      if !ok {
        var pushed := buffer.Push(topic, data.value);
        if !pushed {
          dropped := dropped + [Message(topic, data.value)];
        }
      }
    }

    /** One tick of the drain loop. */
    method DrainTick() returns (ghost oks: seq<bool>)
      requires Valid()
      modifies this, publisher, buffer
      ensures Valid()
      ensures publisher.outcomes == old(publisher.outcomes) + oks && |oks| == |old(buffer.messages)|
      ensures State() == AfterDrain(old(State()), oks)
    {
      oks := [];
      var n := buffer.Len();
      if n == 0 {
        return;
      }
      oks := buffer.Drain(publisher);
    }
  }

  // ---------- Runs ----------

  datatype Event = Result(m: Message, ok: bool) | Drain(oks: seq<bool>)

  type Run = seq<Event>

  function Next(s: DeliveryState, maxSize: int, e: Event): DeliveryState {
    match e
    case Result(m, ok) => AfterResult(s, maxSize, m, ok)
    case Drain(oks) => AfterDrain(s, oks)
  }

  function After(maxSize: int, run: Run): DeliveryState {
    if run == [] then NOTHING
    else Next(After(maxSize, run[..|run| - 1]), maxSize, run[|run| - 1])
  }

  lemma {:induction false} PickedSplits(messages: seq<Message>, oks: seq<bool>)
    ensures multiset(messages) == multiset(Picked(messages, oks, true)) + multiset(Picked(messages, oks, false))
  {
    if messages != [] {
      var n := |messages| - 1;
      assert messages == messages[..n] + [messages[n]];
      PickedSplits(messages[..n], oks);
    }
  }

  lemma ResultConserves(s: DeliveryState, maxSize: int, m: Message, ok: bool)
    requires multiset(s.submitted) == multiset(s.delivered) + multiset(s.buffered) + multiset(s.dropped)
    ensures var t := AfterResult(s, maxSize, m, ok);
      multiset(t.submitted) == multiset(t.delivered) + multiset(t.buffered) + multiset(t.dropped)
  {
  }

  /** Nothing is lost or duplicated: in every run, with any failures, the submitted
      results are exactly the delivered, the buffered and the dropped ones together. */
  lemma {:induction false} Conservation(maxSize: int, run: Run)
    ensures var s := After(maxSize, run);
      multiset(s.submitted) == multiset(s.delivered) + multiset(s.buffered) + multiset(s.dropped)
  {
    if run != [] {
      var front, e := run[..|run| - 1], run[|run| - 1];
      Conservation(maxSize, front);
      match e
      case Result(m, ok) => ResultConserves(After(maxSize, front), maxSize, m, ok);
      case Drain(oks) => PickedSplits(After(maxSize, front).buffered, oks);
    }
  }

  ghost predicate Distinct(messages: seq<Message>) {
    forall i, j | 0 <= i < j < |messages| :: messages[i] != messages[j]
  }

  lemma {:induction false} DistinctCounts(messages: seq<Message>, m: Message)
    requires Distinct(messages)
    ensures multiset(messages)[m] == if m in messages then 1 else 0
  {
    if messages != [] {
      var n := |messages| - 1;
      assert messages == messages[..n] + [messages[n]];
      DistinctCounts(messages[..n], m);
    }
  }

  /** When results differ, each submitted one is in exactly one place, once. */
  lemma ExactlyOnePlace(maxSize: int, run: Run, m: Message)
    requires Distinct(After(maxSize, run).submitted) && m in After(maxSize, run).submitted
    ensures var s := After(maxSize, run);
      multiset(s.delivered)[m] + multiset(s.buffered)[m] + multiset(s.dropped)[m] == 1
  {
    Conservation(maxSize, run);
    DistinctCounts(After(maxSize, run).submitted, m);
  }

  lemma {:induction false} PickedSize(messages: seq<Message>, oks: seq<bool>, wanted: bool)
    ensures TotalSize(Picked(messages, oks, wanted)) <= TotalSize(messages)
  {
    if messages != [] {
      var n := |messages| - 1;
      PickedSize(messages[..n], oks, wanted);
      var front := Picked(messages[..n], oks, wanted);
      assert (front + [messages[n]])[..|front|] == front;
      assert front + [] == front;
    }
  }

  lemma ResultWithinLimit(s: DeliveryState, maxSize: int, m: Message, ok: bool)
    requires TotalSize(s.buffered) <= if maxSize > 0 then maxSize else 0
    ensures TotalSize(AfterResult(s, maxSize, m, ok).buffered) <= if maxSize > 0 then maxSize else 0
  {
    TotalSizeSnoc(s.buffered, m);
  }

  /** The buffer never outgrows its limit. */
  lemma {:induction false} BufferWithinLimit(maxSize: int, run: Run)
    ensures var s := After(maxSize, run); TotalSize(s.buffered) <= if maxSize > 0 then maxSize else 0
  {
    if run != [] {
      var front, e := run[..|run| - 1], run[|run| - 1];
      var s := After(maxSize, front);
      BufferWithinLimit(maxSize, front);
      match e
      case Result(m, ok) =>
        ResultWithinLimit(s, maxSize, m, ok);
      case Drain(oks) =>
        PickedSize(s.buffered, oks, false);
    }
  }

  /** Event `i` is a failed publish of `m` that finds no room in the buffer. */
  ghost predicate DropsAt(maxSize: int, run: Run, i: nat, m: Message) {
    i < |run| && run[i] == Result(m, false) && NoRoom(After(maxSize, run[..i]).buffered, m, maxSize)
  }

  lemma DropsAtEarlier(maxSize: int, front: Run, e: Event, i: nat, m: Message)
    ensures i < |front| ==> (DropsAt(maxSize, front + [e], i, m) <==> DropsAt(maxSize, front, i, m))
    ensures i == |front| ==> (DropsAt(maxSize, front + [e], i, m) <==>
      e == Result(m, false) && NoRoom(After(maxSize, front).buffered, m, maxSize))
  {
    if i <= |front| {
      assert (front + [e])[..i] == front[..i];
      assert front[..|front|] == front;
    }
  }

  /** A result is dropped exactly when its publish fails while the buffer is full. */
  lemma {:induction false} DroppedOnlyWhenFull(maxSize: int, run: Run, m: Message)
    ensures m in After(maxSize, run).dropped <==> exists i: nat :: DropsAt(maxSize, run, i, m)
  {
    if run != [] {
      var front, e := run[..|run| - 1], run[|run| - 1];
      assert run == front + [e];
      DroppedOnlyWhenFull(maxSize, front, m);
      forall i: nat
        ensures i < |front| ==> (DropsAt(maxSize, run, i, m) <==> DropsAt(maxSize, front, i, m))
        ensures i == |front| ==> (DropsAt(maxSize, run, i, m) <==>
          e == Result(m, false) && NoRoom(After(maxSize, front).buffered, m, maxSize))
      {
        DropsAtEarlier(maxSize, front, e, i, m);
      }
      if m in After(maxSize, front).dropped {
        var i: nat :| DropsAt(maxSize, front, i, m);
        assert DropsAt(maxSize, run, i, m);
      } else if m in After(maxSize, run).dropped {
        assert DropsAt(maxSize, run, |front|, m);
      }
    }
  }

  // ---------- Order ----------

  /** `part` is `whole` with some elements left out. */
  ghost predicate InOrder(part: seq<Message>, whole: seq<Message>) {
    if part == [] then true
    else if whole == [] then false
    else
      var p, w := |part| - 1, |whole| - 1;
      (part[p] == whole[w] && InOrder(part[..p], whole[..w])) || InOrder(part, whole[..w])
  }

  lemma {:induction false} InOrderTransitive(a: seq<Message>, b: seq<Message>, c: seq<Message>)
    requires InOrder(a, b) && InOrder(b, c)
    ensures InOrder(a, c)
    decreases |c|
  {
    if a != [] {
      var c' := c[..|c| - 1];
      if InOrder(b, c') {
        InOrderTransitive(a, b, c');
      } else {
        var b' := b[..|b| - 1];
        if InOrder(a, b') {
          InOrderTransitive(a, b', c');
        } else {
          InOrderTransitive(a[..|a| - 1], b', c');
        }
      }
    }
  }

  lemma InOrderSnoc(part: seq<Message>, whole: seq<Message>, m: Message)
    requires InOrder(part, whole)
    ensures InOrder(part + [m], whole + [m]) && InOrder(part, whole + [m])
  {
    assert (part + [m])[..|part|] == part && (whole + [m])[..|whole|] == whole;
  }

  lemma {:induction false} PickedInOrder(messages: seq<Message>, oks: seq<bool>, wanted: bool)
    ensures InOrder(Picked(messages, oks, wanted), messages)
  {
    if messages != [] {
      var n := |messages| - 1;
      assert messages == messages[..n] + [messages[n]];
      PickedInOrder(messages[..n], oks, wanted);
      var front := Picked(messages[..n], oks, wanted);
      InOrderSnoc(front, messages[..n], messages[n]);
      assert front + [] == front;
    }
  }

  /** Buffered results stay in the order they were submitted, whatever drains leave. */
  lemma {:induction false} BufferInSubmissionOrder(maxSize: int, run: Run)
    ensures var s := After(maxSize, run); InOrder(s.buffered, s.submitted)
  {
    if run != [] {
      var front, e := run[..|run| - 1], run[|run| - 1];
      var s := After(maxSize, front);
      BufferInSubmissionOrder(maxSize, front);
      match e
      case Result(m, _) =>
        InOrderSnoc(s.buffered, s.submitted, m);
      case Drain(oks) =>
        PickedInOrder(s.buffered, oks, false);
        InOrderTransitive(Picked(s.buffered, oks, false), s.buffered, s.submitted);
    }
  }

  // ---------- The documented drain ----------

  /** How many messages are handled before the first error. */
  function BeforeFirstError(oks: seq<bool>, n: nat): (k: nat)
    ensures k <= n
    ensures forall i | 0 <= i < k :: Succeeded(oks, i)
    ensures k < n ==> !Succeeded(oks, k)
  {
    if n == 0 then 0
    else
      var k := BeforeFirstError(oks, n - 1);
      if k == n - 1 && Succeeded(oks, n - 1) then n else k
  }

  ghost predicate SuccessAfterError(oks: seq<bool>, n: nat) {
    exists i | BeforeFirstError(oks, n) < i < n :: Succeeded(oks, i)
  }

  lemma PickedSnoc(front: seq<Message>, m: Message, oks: seq<bool>)
    ensures Picked(front + [m], oks, true) == Picked(front, oks, true) + if Succeeded(oks, |front|) then [m] else []
    ensures Picked(front + [m], oks, false) == Picked(front, oks, false) + if Succeeded(oks, |front|) then [] else [m]
  {
    assert (front + [m])[..|front|] == front;
  }

  lemma SliceSnoc<T>(front: seq<T>, x: T, k: nat)
    requires k <= |front|
    ensures (front + [x])[..k] == front[..k] + [] && (front + [x])[k..] == front[k..] + [x]
  {
  }

  lemma {:induction false} PickedPrefix(messages: seq<Message>, oks: seq<bool>, k: nat)
    requires k <= |messages|
    requires forall i | 0 <= i < k :: Succeeded(oks, i)
    requires forall i | k <= i < |messages| :: !Succeeded(oks, i)
    ensures Picked(messages, oks, true) == messages[..k] && Picked(messages, oks, false) == messages[k..]
  {
    if messages != [] {
      var n := |messages| - 1;
      var front, m := messages[..n], messages[n];
      assert messages == front + [m];
      PickedSnoc(front, m, oks);
      if k <= n {
        PickedPrefix(front, oks, k);
        SliceSnoc(front, m, k);
      } else {
        PickedPrefix(front, oks, n);
        assert front[n..] + [] == messages[k..];
      }
    }
  }

  lemma {:induction false} PickedLengths(messages: seq<Message>, oks: seq<bool>, k: nat)
    requires k <= |messages|
    requires forall i | 0 <= i < k :: Succeeded(oks, i)
    ensures |Picked(messages, oks, true)| >= k
    ensures (exists i | k <= i < |messages| :: Succeeded(oks, i)) ==> |Picked(messages, oks, true)| > k
    decreases |messages|
  {
    if k < |messages| {
      var n := |messages| - 1;
      PickedLengths(messages[..n], oks, k);
      if exists i | k <= i < |messages| :: Succeeded(oks, i) {
        var i :| k <= i < |messages| && Succeeded(oks, i);
        assert i == n || i < |messages[..n]|;
      }
    } else {
      PickedPrefix(messages, oks, k);
    }
  }

  /** A drain that stopped at the first error would hand on the messages before it and
      keep the rest. The code does that exactly when no publish succeeds after an
      error; otherwise it delivers more and leaves gaps. */
  lemma {:induction false} DrainMatchesDocumentation(messages: seq<Message>, oks: seq<bool>)
    ensures var k := BeforeFirstError(oks, |messages|);
      Picked(messages, oks, true) == messages[..k] && Picked(messages, oks, false) == messages[k..]
      <==> !SuccessAfterError(oks, |messages|)
  {
    var k := BeforeFirstError(oks, |messages|);
    if !SuccessAfterError(oks, |messages|) {
      PickedPrefix(messages, oks, k);
    } else {
      var i :| k < i < |messages| && Succeeded(oks, i);
      PickedLengths(messages, oks, k);
    }
  }

  // ---------- Replay ----------

  lemma {:induction false} PickedNothing(messages: seq<Message>, oks: seq<bool>)
    ensures Picked(messages, oks, false) == [] <==> forall i | 0 <= i < |messages| :: Succeeded(oks, i)
  {
    if messages != [] {
      PickedNothing(messages[..|messages| - 1], oks);
    }
  }

  /** After any run, a drain empties the buffer exactly when every publish succeeds, and
      then hands on all buffered results in order; nothing else changes. */
  lemma HealthyDrainEmpties(maxSize: int, run: Run, oks: seq<bool>)
    ensures var s, t := After(maxSize, run), After(maxSize, run + [Drain(oks)]);
      && (t.buffered == [] <==> forall i | 0 <= i < |s.buffered| :: Succeeded(oks, i))
      && (t.buffered == [] ==> t.delivered == s.delivered + s.buffered)
      && t.submitted == s.submitted && t.dropped == s.dropped
  {
    var s := After(maxSize, run);
    assert (run + [Drain(oks)])[..|run|] == run;
    PickedNothing(s.buffered, oks);
    if forall i | 0 <= i < |s.buffered| :: Succeeded(oks, i) {
      PickedPrefix(s.buffered, oks, |s.buffered|);
      assert s.buffered[..|s.buffered|] == s.buffered;
    }
  }

  /** The size of a buffer is that of its data, message by message. */
  lemma {:induction false} SizeIsAdditive(left: seq<Message>, right: seq<Message>, m: Message)
    ensures TotalSize(left + right) == TotalSize(left) + TotalSize(right) && TotalSize([m]) == |m.data|
  {
    assert [m][..0] == [];
    if right == [] {
      assert left + right == left;
    } else {
      assert (left + right)[..|left + right| - 1] == left + right[..|right| - 1];
      SizeIsAdditive(left, right[..|right| - 1], m);
    }
  }
}
