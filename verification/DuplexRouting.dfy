/** Reply routing of the full duplex endpoints.

    A client allocates a channel in the server's consumer segment (its producer channel), a channel in
    the server's producer segment (its consumer channel), and adds the pair to a table.  For an
    incoming request the server looks the reply channel up in that table.
 */
module DuplexRouting {

  datatype Entry = Entry(consumerIndex: nat, producerIndex: nat)

  // ---- the table --------------------------------------------------------------------------------

  /** The reply channel: of the first entry whose consumer index is the incoming channel, or the one
      of the previous request if there is none. */
  function Lookup(table: seq<Entry>, incoming: nat, previous: nat): nat {
    if table == [] then previous
    else if table[0].consumerIndex == incoming then table[0].producerIndex
    else Lookup(table[1..], incoming, previous)
  }

  class DuplexSegment {
    const allowedClients: nat
    const consumerProducerMap: array<Entry>
    var activeClients: nat
    var activeClientProducerIndex: nat

    ghost predicate Valid()
      reads this
    {
      activeClients <= allowedClients == consumerProducerMap.Length
    }

    ghost function Table(): seq<Entry>
      requires Valid()
      reads this, consumerProducerMap
    {
      consumerProducerMap[..activeClients]
    }

    constructor (clients: nat)
      ensures Valid() && fresh(consumerProducerMap) && allowedClients == clients
      ensures Table() == [] && activeClientProducerIndex == 0
    {
      allowedClients := clients;
      consumerProducerMap := new Entry[clients](_ => Entry(0, 0));
      activeClients, activeClientProducerIndex := 0, 0;
    }

    method AddMapEntry(consumerIndex: nat, producerIndex: nat) returns (ok: bool)
      requires Valid()
      modifies this`activeClients, consumerProducerMap
      ensures Valid()
      ensures ok <==> old(activeClients) < allowedClients
      ensures Table() == if ok then old(Table()) + [Entry(consumerIndex, producerIndex)] else old(Table())
    {
      if activeClients >= allowedClients {
        return false;
      }
      consumerProducerMap[activeClients] := Entry(consumerIndex, producerIndex);
      activeClients := activeClients + 1;
      ok := true;
    }

    method SelectReplyChannel(incoming: nat)
      requires Valid()
      modifies this`activeClientProducerIndex
      ensures Valid() && Table() == old(Table())
      ensures activeClientProducerIndex == Lookup(Table(), incoming, old(activeClientProducerIndex))
    {
      ghost var table := Table();
      var i := 0;
      while i < activeClients
        invariant i <= activeClients && Table() == table
        invariant activeClientProducerIndex == old(activeClientProducerIndex)
        invariant Lookup(table, incoming, activeClientProducerIndex) == Lookup(table[i..], incoming, activeClientProducerIndex)
      {
        assert table[i..][0] == consumerProducerMap[i] && table[i..][1..] == table[i + 1..];
        if consumerProducerMap[i].consumerIndex == incoming {
          activeClientProducerIndex := consumerProducerMap[i].producerIndex;
          return;
        }
        i := i + 1;
      }
    }
  }

  // ---- which replies arrive ---------------------------------------------------------------------

  /** The table of a set of clients: `pairing[x]` is the consumer channel of the client whose producer
      channel is `x`, and every client has added its entry. */
  ghost predicate Complete(table: seq<Entry>, pairing: seq<nat>) {
    && (forall x, y :: 0 <= x < y < |pairing| ==> pairing[x] != pairing[y])
    && (forall x :: 0 <= x < |pairing| ==> Entry(pairing[x], x) in table)
    && (forall e :: e in table ==> e.producerIndex < |pairing| && e == Entry(pairing[e.producerIndex], e.producerIndex))
  }

  /** The lookup computes the inverse of the pairing. */
  lemma {:induction false} LookupInverts(table: seq<Entry>, pairing: seq<nat>, x: nat, previous: nat)
    requires x < |pairing| && Entry(pairing[x], x) in table
    requires forall a, b :: 0 <= a < b < |pairing| ==> pairing[a] != pairing[b]
    requires forall e :: e in table ==> e.producerIndex < |pairing| && e == Entry(pairing[e.producerIndex], e.producerIndex)
    ensures Lookup(table, pairing[x], previous) == x
  {
    assert table[0] in table;
    if table[0].consumerIndex != pairing[x] {
      LookupInverts(table[1..], pairing, x, previous);
    }
  }

  /** Every reply reaches the client that sent the request iff the pairing is its own inverse. */
  lemma RepliesReturnIffInvolution(table: seq<Entry>, pairing: seq<nat>, previous: nat)
    requires Complete(table, pairing)
    requires forall x :: 0 <= x < |pairing| ==> pairing[x] < |pairing|
    ensures (forall x :: 0 <= x < |pairing| ==> Lookup(table, x, previous) == pairing[x])
            <==> (forall x :: 0 <= x < |pairing| ==> pairing[pairing[x]] == x)
  {
    forall x | 0 <= x < |pairing|
      ensures Lookup(table, pairing[x], previous) == x
    {
      LookupInverts(table, pairing, x, previous);
    }
    if forall x :: 0 <= x < |pairing| ==> Lookup(table, x, previous) == pairing[x] {
      forall x | 0 <= x < |pairing|
        ensures pairing[pairing[x]] == x
      {
        assert Lookup(table, pairing[x], previous) == pairing[pairing[x]];
      }
    } else {
      var x :| 0 <= x < |pairing| && Lookup(table, x, previous) != pairing[x];
      assert pairing[pairing[x]] != x;
    }
  }

  // ---- constructing the clients -----------------------------------------------------------------

  datatype Stage =
    | Outside
    | HasProducer(producer: nat)
    | HasBoth(producer: nat, consumer: nat)
    | Paired(producer: nat, consumer: nat)

  /** The owners of the channels handed out so far in the two segments, and the table. */
  datatype Construction = Construction(
    stages: seq<Stage>,
    producers: seq<nat>,
    consumers: seq<nat>,
    table: seq<Entry>)

  /** One of the three steps of a client's constructor. */
  function Step(s: Construction, k: nat): Construction
    requires k < |s.stages|
  {
    match s.stages[k]
    case Outside =>
      s.(stages := s.stages[k := HasProducer(|s.producers|)], producers := s.producers + [k])
    case HasProducer(producer) =>
      s.(stages := s.stages[k := HasBoth(producer, |s.consumers|)], consumers := s.consumers + [k])
    case HasBoth(producer, consumer) =>
      s.(stages := s.stages[k := Paired(producer, consumer)], table := s.table + [Entry(consumer, producer)])
    case Paired(_, _) => s
  }

  function Begin(clients: nat): Construction {
    Construction(seq(clients, _ => Outside), [], [], [])
  }

  ghost predicate OwnsProducer(s: Construction, k: nat, x: nat)
    requires k < |s.stages|
  {
    !s.stages[k].Outside? && s.stages[k].producer == x
  }

  ghost predicate OwnsConsumer(s: Construction, k: nat, c: nat)
    requires k < |s.stages|
  {
    (s.stages[k].HasBoth? || s.stages[k].Paired?) && s.stages[k].consumer == c
  }

  function Rank(stage: Stage): nat {
    match stage
    case Outside => 0
    case HasProducer(_) => 1
    case HasBoth(_, _) => 2
    case Paired(_, _) => 3
  }

  /** How many clients have made at least `rank` steps. */
  function CountFrom(stages: seq<Stage>, rank: nat): nat {
    if stages == [] then 0
    else CountFrom(stages[1..], rank) + if Rank(stages[0]) >= rank then 1 else 0
  }

  lemma {:induction false} CountMoves(stages: seq<Stage>, k: nat, stage: Stage, rank: nat)
    requires k < |stages| && Rank(stage) == Rank(stages[k]) + 1
    ensures CountFrom(stages[k := stage], rank)
            == CountFrom(stages, rank) + if Rank(stage) == rank then 1 else 0
  {
    if k > 0 {
      CountMoves(stages[1..], k - 1, stage, rank);
      assert stages[k := stage][1..] == stages[1..][k - 1 := stage];
    } else {
      assert stages[0 := stage][1..] == stages[1..];
    }
  }

  ghost predicate Inv(s: Construction) {
    && |s.producers| == CountFrom(s.stages, 1) && |s.consumers| == CountFrom(s.stages, 2)
    && (forall x :: 0 <= x < |s.producers| ==> s.producers[x] < |s.stages| && OwnsProducer(s, s.producers[x], x))
    && (forall c :: 0 <= c < |s.consumers| ==> s.consumers[c] < |s.stages| && OwnsConsumer(s, s.consumers[c], c))
    && (forall k :: 0 <= k < |s.stages| ==> StageInv(s, k))
    && (forall i :: 0 <= i < |s.table| ==> FromClient(s, s.table[i]))
  }

  ghost predicate StageInv(s: Construction, k: nat)
    requires k < |s.stages|
  {
    match s.stages[k]
    case Outside => true
    case HasProducer(x) => x < |s.producers| && s.producers[x] == k
    case HasBoth(x, c) => x < |s.producers| && s.producers[x] == k && c < |s.consumers| && s.consumers[c] == k
    case Paired(x, c) =>
      x < |s.producers| && s.producers[x] == k && c < |s.consumers| && s.consumers[c] == k && Entry(c, x) in s.table
  }

  ghost predicate FromClient(s: Construction, e: Entry) {
    && e.producerIndex < |s.producers|
    && s.producers[e.producerIndex] < |s.stages|
    && s.stages[s.producers[e.producerIndex]] == Paired(e.producerIndex, e.consumerIndex)
  }

  lemma StepCounts(s: Construction, k: nat)
    requires Inv(s) && k < |s.stages|
    ensures |Step(s, k).producers| == CountFrom(Step(s, k).stages, 1)
    ensures |Step(s, k).consumers| == CountFrom(Step(s, k).stages, 2)
  {
    if !s.stages[k].Paired? {
      CountMoves(s.stages, k, Step(s, k).stages[k], 1);
      CountMoves(s.stages, k, Step(s, k).stages[k], 2);
    }
  }

  lemma StepInv(s: Construction, k: nat)
    requires Inv(s) && k < |s.stages|
    ensures Inv(Step(s, k))
  {
    var t := Step(s, k);
    assert StageInv(s, k);
    StepCounts(s, k);
    forall x | 0 <= x < |t.producers|
      ensures t.producers[x] < |t.stages| && OwnsProducer(t, t.producers[x], x)
    {
      assert x < |s.producers| ==> OwnsProducer(s, s.producers[x], x);
    }
    forall c | 0 <= c < |t.consumers|
      ensures t.consumers[c] < |t.stages| && OwnsConsumer(t, t.consumers[c], c)
    {
      assert c < |s.consumers| ==> OwnsConsumer(s, s.consumers[c], c);
    }
    forall j | 0 <= j < |t.stages|
      ensures StageInv(t, j)
    {
      assert StageInv(s, j);
    }
    forall i | 0 <= i < |t.table|
      ensures FromClient(t, t.table[i])
    {
      assert i < |s.table| ==> FromClient(s, s.table[i]);
    }
  }

  function Execute(s: Construction, schedule: seq<nat>): (end: Construction)
    requires forall i :: 0 <= i < |schedule| ==> schedule[i] < |s.stages|
    ensures |end.stages| == |s.stages|
    decreases |schedule|
  {
    if schedule == [] then s else Execute(Step(s, schedule[0]), schedule[1..])
  }

  lemma {:induction false} ExecuteInv(s: Construction, schedule: seq<nat>)
    requires Inv(s) && forall i :: 0 <= i < |schedule| ==> schedule[i] < |s.stages|
    ensures Inv(Execute(s, schedule)) && |Execute(s, schedule).stages| == |s.stages|
    decreases |schedule|
  {
    if schedule != [] {
      StepInv(s, schedule[0]);
      ExecuteInv(Step(s, schedule[0]), schedule[1..]);
    }
  }

  lemma BeginInv(clients: nat)
    ensures Inv(Begin(clients))
  {
    CountNone(clients, 1);
    CountNone(clients, 2);
  }

  lemma {:induction false} CountNone(clients: nat, rank: nat)
    requires rank > 0
    ensures CountFrom(Begin(clients).stages, rank) == 0
  {
    if clients > 0 {
      CountNone(clients - 1, rank);
      assert Begin(clients).stages[1..] == Begin(clients - 1).stages;
    }
  }

  lemma {:induction false} CountAll(stages: seq<Stage>, rank: nat)
    requires forall k :: 0 <= k < |stages| ==> Rank(stages[k]) >= rank
    ensures CountFrom(stages, rank) == |stages|
  {
    if stages != [] {
      CountAll(stages[1..], rank);
    }
  }

  /** The consumer channel of the owner of each producer channel. */
  ghost function PairingOf(s: Construction): (pairing: seq<nat>)
    requires Inv(s) && forall k :: 0 <= k < |s.stages| ==> s.stages[k].Paired?
    ensures |pairing| == |s.producers|
    ensures forall x :: 0 <= x < |pairing| ==> pairing[x] == s.stages[s.producers[x]].consumer
  {
    seq(|s.producers|, x requires 0 <= x < |s.producers| => s.stages[s.producers[x]].consumer)
  }

  /** However the constructors interleave, once every client is paired the table is complete. */
  lemma EveryConstruction(clients: nat, schedule: seq<nat>)
    requires forall i :: 0 <= i < |schedule| ==> schedule[i] < clients
    requires forall k :: 0 <= k < clients ==> Execute(Begin(clients), schedule).stages[k].Paired?
    ensures var s := Execute(Begin(clients), schedule);
            && Inv(s) && |s.stages| == clients
            && |PairingOf(s)| == clients
            && (forall x :: 0 <= x < clients ==> PairingOf(s)[x] < clients)
            && Complete(s.table, PairingOf(s))
  {
    BeginInv(clients);
    ExecuteInv(Begin(clients), schedule);
    var s := Execute(Begin(clients), schedule);
    var pairing := PairingOf(s);
    CountAll(s.stages, 1);
    CountAll(s.stages, 2);
    forall x | 0 <= x < |pairing|
      ensures pairing[x] < clients && s.consumers[pairing[x]] == s.producers[x] && Entry(pairing[x], x) in s.table
    {
      assert OwnsProducer(s, s.producers[x], x) && StageInv(s, s.producers[x]);
    }
    forall x, y | 0 <= x < y < |pairing|
      ensures pairing[x] != pairing[y]
    {
      assert OwnsProducer(s, s.producers[x], x) && OwnsProducer(s, s.producers[y], y);
    }
    forall e | e in s.table
      ensures e.producerIndex < |pairing| && e == Entry(pairing[e.producerIndex], e.producerIndex)
    {
      assert FromClient(s, e);
    }
  }

  // ---- requests while clients are being constructed ---------------------------------------------

  lemma {:induction false} LookupNone(table: seq<Entry>, incoming: nat, previous: nat)
    requires forall e :: e in table ==> e.consumerIndex != incoming
    ensures Lookup(table, incoming, previous) == previous
  {
    if table != [] {
      assert table[0] in table;
      LookupNone(table[1..], incoming, previous);
    }
  }

  lemma {:induction false} LookupOnly(table: seq<Entry>, incoming: nat, only: Entry, previous: nat)
    requires only in table && only.consumerIndex == incoming
    requires forall e :: e in table && e.consumerIndex == incoming ==> e == only
    ensures Lookup(table, incoming, previous) == only.producerIndex
  {
    assert table[0] in table;
    if table[0].consumerIndex != incoming {
      LookupOnly(table[1..], incoming, only, previous);
    }
  }

  /** A request of client `k` is answered to itself iff the client that owns the consumer channel of the
      same number as `k`'s producer channel is paired and owns the producer channel of the same number as
      `k`'s consumer channel; or is not paired yet, and the previous reply went where this one must go. */
  predicate Answered(s: Construction, k: nat, previous: nat)
    requires k < |s.stages| && s.stages[k].Paired?
  {
    var Paired(x, c) := s.stages[k];
    if x < |s.consumers| && s.consumers[x] < |s.stages| && s.stages[s.consumers[x]].Paired?
    then s.stages[s.consumers[x]].producer == c
    else previous == c
  }

  /** After any steps of any constructors, a paired client gets its reply iff it is so answered. */
  lemma ReplyReturnsIff(clients: nat, schedule: seq<nat>, k: nat, previous: nat)
    requires forall i :: 0 <= i < |schedule| ==> schedule[i] < clients
    requires k < clients && Execute(Begin(clients), schedule).stages[k].Paired?
    ensures var s := Execute(Begin(clients), schedule);
            Lookup(s.table, s.stages[k].producer, previous) == s.stages[k].consumer <==> Answered(s, k, previous)
  {
    hide Execute;
    var s := Execute(Begin(clients), schedule);
    BeginInv(clients);
    ExecuteInv(Begin(clients), schedule);
    LookupGives(s, s.stages[k].producer, previous);
  }

  /** What the lookup gives at any time: the producer channel of the paired client that owns the consumer
      channel, or the reply channel of the previous request. */
  lemma LookupGives(s: Construction, x: nat, previous: nat)
    requires Inv(s)
    ensures Lookup(s.table, x, previous)
            == if x < |s.consumers| && s.consumers[x] < |s.stages| && s.stages[s.consumers[x]].Paired?
               then s.stages[s.consumers[x]].producer else previous
  {
    forall e | e in s.table && e.consumerIndex == x
      ensures x < |s.consumers| && s.stages[s.consumers[x]] == Paired(e.producerIndex, x)
    {
      assert FromClient(s, e) && StageInv(s, s.producers[e.producerIndex]);
    }
    if x < |s.consumers| && s.stages[s.consumers[x]].Paired? {
      var d := s.consumers[x];
      assert StageInv(s, d) && OwnsConsumer(s, d, x);
      LookupOnly(s.table, x, Entry(x, s.stages[d].producer), previous);
    } else {
      LookupNone(s.table, x, previous);
    }
  }

  lemma Onwards(s: Construction, k: nat, rest: seq<nat>)
    requires k < |s.stages| && forall i :: 0 <= i < |rest| ==> rest[i] < |s.stages|
    ensures Execute(s, [k] + rest) == Execute(Step(s, k), rest)
  {
    assert ([k] + rest)[1..] == rest;
  }

  /** The schedule in which the constructors of the clients `from`, `from + 1`, ... run one by one. */
  function OneByOne(from: nat, clients: nat): (schedule: seq<nat>)
    ensures forall i :: 0 <= i < |schedule| ==> schedule[i] < clients
    decreases clients - from
  {
    if from >= clients then [] else [from] + ([from] + ([from] + OneByOne(from + 1, clients)))
  }

  /** The first `done` clients are paired with equal channel numbers, the others have not begun. */
  ghost predicate Aligned(s: Construction, done: nat) {
    && |s.producers| == |s.consumers| == done
    && forall k :: 0 <= k < |s.stages| ==> s.stages[k] == if k < done then Paired(k, k) else Outside
  }

  lemma ClientAlone(s: Construction, k: nat)
    requires Aligned(s, k) && k < |s.stages|
    ensures Aligned(Step(Step(Step(s, k), k), k), k + 1)
  {
  }

  lemma {:induction false} StaysAligned(s: Construction, from: nat)
    requires Aligned(s, from) && from <= |s.stages|
    ensures Aligned(Execute(s, OneByOne(from, |s.stages|)), |s.stages|)
    ensures |Execute(s, OneByOne(from, |s.stages|)).stages| == |s.stages|
    decreases |s.stages| - from
  {
    if from < |s.stages| {
      var rest := OneByOne(from + 1, |s.stages|);
      Onwards(s, from, [from] + ([from] + rest));
      Onwards(Step(s, from), from, [from] + rest);
      Onwards(Step(Step(s, from), from), from, rest);
      ClientAlone(s, from);
      StaysAligned(Step(Step(Step(s, from), from), from), from + 1);
    }
  }

  /** Clients constructed one after the other get equal channel numbers, so all replies return. */
  lemma UninterleavedRepliesReturn(clients: nat, x: nat, previous: nat)
    requires x < clients
    ensures var s := Execute(Begin(clients), OneByOne(0, clients));
            |s.stages| == clients && s.stages[x] == Paired(x, x) && Lookup(s.table, x, previous) == x
  {
    StaysAligned(Begin(clients), 0);
    EveryConstruction(clients, OneByOne(0, clients));
    var s := Execute(Begin(clients), OneByOne(0, clients));
    assert OwnsProducer(s, s.producers[x], x);
    LookupInverts(s.table, PairingOf(s), x, previous);
  }

  /** The first `done` clients are paired with equal channel numbers, and at most the next has begun. */
  ghost predicate OneBegun(s: Construction, done: nat) {
    forall k :: 0 <= k < |s.stages| ==>
      if k < done then s.stages[k] == Paired(k, k)
      else if k == done then !s.stages[k].Paired?
      else s.stages[k].Outside?
  }

  lemma {:induction false} BegunMeanwhile(s: Construction, from: nat, n: nat) returns (done: nat)
    requires Aligned(s, from) && from <= |s.stages| && n <= |OneByOne(from, |s.stages|)|
    ensures OneBegun(Execute(s, OneByOne(from, |s.stages|)[..n]), done)
    decreases |s.stages| - from
  {
    var schedule := OneByOne(from, |s.stages|);
    done := from;
    if n == 0 {
      assert schedule[..0] == [] && Execute(s, []) == s;
    } else {
      var a, b, c := Step(s, from), Step(Step(s, from), from), Step(Step(Step(s, from), from), from);
      ClientAlone(s, from);
      if n == 1 {
        assert schedule[..1] == [from] + [];
        Onwards(s, from, []);
        assert Execute(a, []) == a;
      } else if n == 2 {
        assert schedule[..2] == [from] + ([from] + []);
        Onwards(s, from, [from] + []);
        Onwards(a, from, []);
        assert Execute(b, []) == b;
      } else {
        var rest := OneByOne(from + 1, |s.stages|)[..n - 3];
        assert schedule[..n] == [from] + ([from] + ([from] + rest));
        Onwards(s, from, [from] + ([from] + rest));
        Onwards(a, from, [from] + rest);
        Onwards(b, from, rest);
        done := BegunMeanwhile(c, from + 1, n - 3);
      }
    }
  }

  /** While clients are constructed one after the other, the replies to those that are finished return. */
  lemma RepliesReturnMeanwhile(clients: nat, n: nat, k: nat, previous: nat)
    requires n <= |OneByOne(0, clients)| && k < clients
    requires Execute(Begin(clients), OneByOne(0, clients)[..n]).stages[k].Paired?
    ensures var s := Execute(Begin(clients), OneByOne(0, clients)[..n]);
            s.stages[k] == Paired(k, k) && Lookup(s.table, k, previous) == k
  {
    hide Execute, OneByOne;
    var schedule := OneByOne(0, clients)[..n];
    var s := Execute(Begin(clients), schedule);
    var done := BegunMeanwhile(Begin(clients), 0, n);
    BeginInv(clients);
    ExecuteInv(Begin(clients), schedule);
    assert StageInv(s, k);
    LookupGives(s, k, previous);
  }

  lemma TwoSteps(s: Construction, k: nat, l: nat, rest: seq<nat>)
    requires k < |s.stages| && l < |s.stages| && forall i :: 0 <= i < |rest| ==> rest[i] < |s.stages|
    ensures Execute(s, [k] + ([l] + rest)) == Execute(Step(Step(s, k), l), rest)
  {
    Onwards(s, k, [l] + rest);
    Onwards(Step(s, k), l, rest);
  }

  /** The stages of three clients whose constructors interleave. */
  function Crossed(steps: nat): Construction {
    if steps < 2 then Begin(3)
    else if steps < 4 then Construction([HasProducer(0), HasProducer(1), Outside], [0, 1], [], [])
    else if steps < 6 then Construction([HasProducer(0), HasProducer(1), HasBoth(2, 0)], [0, 1, 2], [2], [])
    else if steps < 8 then Construction([HasBoth(0, 1), HasBoth(1, 2), HasBoth(2, 0)], [0, 1, 2], [2, 0, 1], [])
    else if steps < 9 then
      Construction([Paired(0, 1), Paired(1, 2), HasBoth(2, 0)], [0, 1, 2], [2, 0, 1], [Entry(1, 0), Entry(2, 1)])
    else
      Construction([Paired(0, 1), Paired(1, 2), Paired(2, 0)], [0, 1, 2], [2, 0, 1],
                   [Entry(1, 0), Entry(2, 1), Entry(0, 2)])
  }

  lemma CrossedSteps(k: nat, l: nat, done: nat, rest: seq<nat>)
    requires ((done == 0 || done == 4 || done == 6) && k == 0 && l == 1) || (done == 2 && k == l == 2)
    requires forall i :: 0 <= i < |rest| ==> rest[i] < 3
    ensures Execute(Crossed(done), [k] + ([l] + rest)) == Execute(Crossed(done + 2), rest)
  {
    TwoSteps(Crossed(done), k, l, rest);
    CrossedPair(done);
  }

  lemma CrossedPair(done: nat)
    ensures done == 0 ==> Step(Step(Crossed(0), 0), 1) == Crossed(2)
    ensures done == 2 ==> Step(Step(Crossed(2), 2), 2) == Crossed(4)
    ensures done == 4 ==> Step(Step(Crossed(4), 0), 1) == Crossed(6)
    ensures done == 6 ==> Step(Step(Crossed(6), 0), 1) == Crossed(8)
  {
    if done == 0 {
      assert Step(Crossed(0), 0) == Construction([HasProducer(0), Outside, Outside], [0], [], []);
    } else if done == 2 {
      assert Step(Crossed(2), 2) == Construction([HasProducer(0), HasProducer(1), HasProducer(2)], [0, 1, 2], [], []);
    } else if done == 4 {
      assert Step(Crossed(4), 0) == Construction([HasBoth(0, 1), HasProducer(1), HasBoth(2, 0)], [0, 1, 2], [2, 0], []);
    } else if done == 6 {
      assert Step(Crossed(6), 0)
          == Construction([Paired(0, 1), HasBoth(1, 2), HasBoth(2, 0)], [0, 1, 2], [2, 0, 1], [Entry(1, 0)]);
    }
  }

  function CrossedSchedule(from: nat): (schedule: seq<nat>)
    ensures forall i :: 0 <= i < |schedule| ==> schedule[i] < 3
    decreases 9 - from
  {
    if from >= 8 then [2]
    else if from == 2 then [2] + ([2] + CrossedSchedule(4))
    else [0] + ([1] + CrossedSchedule(from + 2))
  }

  /** Three clients whose constructors interleave: the reply to the owner of producer channel 0 goes
      to channel 2 instead of the owner's consumer channel 1. */
  lemma InterleavedReplyMisrouted(previous: nat)
    ensures var s := Execute(Begin(3), CrossedSchedule(0));
            && s.stages == [Paired(0, 1), Paired(1, 2), Paired(2, 0)]
            && Lookup(s.table, 0, previous) == 2
  {
    CrossedSteps(0, 1, 0, CrossedSchedule(2));
    CrossedSteps(2, 2, 2, CrossedSchedule(4));
    CrossedSteps(0, 1, 4, CrossedSchedule(6));
    CrossedSteps(0, 1, 6, CrossedSchedule(8));
    CrossedEnd(previous);
  }

  lemma CrossedEnd(previous: nat)
    ensures Execute(Crossed(8), [2]) == Crossed(9)
    ensures Lookup(Crossed(9).table, 0, previous) == 2
  {
    Onwards(Crossed(8), 2, []);
    assert [2] + [] == [2];
    assert Step(Crossed(8), 2) == Crossed(9);
    var table := Crossed(9).table;
    assert table[1..] == [Entry(2, 1), Entry(0, 2)] && table[1..][1..] == [Entry(0, 2)];
    assert Lookup([Entry(0, 2)], 0, previous) == 2;
    assert Lookup([Entry(2, 1), Entry(0, 2)], 0, previous) == 2;
  }
}
