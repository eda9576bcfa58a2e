/** The bounded queue: two semaphores, two counters and a ring of slots, with one thread pushing and
    one popping. Every access to shared memory is a step of its own, taken in any order. */
module Queue {

  type Item = int

  const INT_MAX := 0x7FFF_FFFF

  /** InterlockedIncrement on an int: past the largest value comes the smallest. */
  function Increment(x: int): int { if x == INT_MAX then -INT_MAX - 1 else x + 1 }

  /** An int that was incremented n times from 0. atomic_increment takes 1 off again, in two's
      complement too, so what it returns is the value from before. */
  function Counter(n: nat): int { (n + 0x8000_0000) % 0x1_0000_0000 - 0x8000_0000 }

  lemma CounterNext(n: nat)
    ensures Counter(n + 1) == Increment(Counter(n)) && Counter(0) == 0
    ensures n <= INT_MAX ==> Counter(n) == n
  {
  }

  /** The remainder of C, which has the sign of the dividend. */
  function Rem(x: int, n: int): int
    requires n > 0
  {
    if x >= 0 then x % n else -(-x % n)
  }

  /** ReleaseSemaphore: at the maximum count it fails and nothing happens. */
  function Release(count: nat, max: nat): nat { if count < max then count + 1 else count }

  /** Where the pushing thread is: outside, past free_items, holding a slot index, past the store. */
  datatype Push = PushIdle | PushEntered(item: Item) | PushIndexed(item: Item, index: int) | PushStored

  /** Where the popping thread is: outside, past used_items, holding a slot index, past the load. */
  datatype Pop = PopIdle | PopEntered | PopIndexed(index: int) | PopLoaded(item: Item)

  /** queue_t, the two threads, and as history the items stored and the items loaded, in order. */
  datatype State = State(items: seq<Item>, tail: int, head: int, free: nat, used: nat, push: Push, pop: Pop,
                         pushed: seq<Item>, popped: seq<Item>)

  function Create(items: seq<Item>): State {
    State(items, 0, 0, |items|, 0, PushIdle, PopIdle, [], [])
  }

  /** One atomic access. */
  datatype Action = Enter(item: Item) | Reserve | Store | Announce | Await | Take | Load | Return

  /** Whether the step can be taken; acquiring a semaphore blocks, or fails when tried, at zero. */
  predicate Enabled(s: State, a: Action) {
    match a
    case Enter(_) => s.push.PushIdle? && s.free > 0
    case Reserve => s.push.PushEntered?
    case Store => s.push.PushIndexed?
    case Announce => s.push.PushStored?
    case Await => s.pop.PopIdle? && s.used > 0
    case Take => s.pop.PopEntered?
    case Load => s.pop.PopIndexed?
    case Return => s.pop.PopLoaded?
  }

  /** The slots that the steps index exist. */
  predicate InBounds(s: State) {
    && |s.items| > 0
    && (s.push.PushIndexed? ==> 0 <= s.push.index < |s.items|)
    && (s.pop.PopIndexed? ==> 0 <= s.pop.index < |s.items|)
  }

  function Step(s: State, a: Action): State
    requires Enabled(s, a) && InBounds(s)
  {
    match a
    case Enter(item) => s.(free := s.free - 1, push := PushEntered(item))
    case Reserve => s.(tail := Increment(s.tail), push := PushIndexed(s.push.item, Rem(s.tail, |s.items|)))
    case Store => s.(items := s.items[s.push.index := s.push.item], push := PushStored, pushed := s.pushed + [s.push.item])
    case Announce => s.(used := Release(s.used, |s.items|), push := PushIdle)
    case Await => s.(used := s.used - 1, pop := PopEntered)
    case Take => s.(head := Increment(s.head), pop := PopIndexed(Rem(s.head, |s.items|)))
    case Load => s.(pop := PopLoaded(s.items[s.pop.index]), popped := s.popped + [s.items[s.pop.index]])
    case Return => s.(free := Release(s.free, |s.items|), pop := PopIdle)
  }

  // ---- The invariant.

  /** Permits held by a thread between acquiring one semaphore and releasing the other. */
  function InFlight(s: State): nat {
    (if s.push.PushIdle? then 0 else 1) + (if s.pop.PopIdle? then 0 else 1)
  }

  /** How often the pushing side took an index. */
  function Tickets(s: State): nat { |s.pushed| + (if s.push.PushIndexed? then 1 else 0) }

  /** Counters and semaphores in terms of what was stored and loaded. */
  predicate Counted(s: State) {
    var n, w, r := |s.items|, |s.pushed|, |s.popped|;
    && n > 0 && r <= w
    && s.tail == Counter(Tickets(s))
    && s.head == Counter(r + (if s.pop.PopIndexed? then 1 else 0))
    && s.free == n + r - w - (if s.push.PushEntered? || s.push.PushIndexed? then 1 else 0) - (if s.pop.PopLoaded? then 1 else 0)
    && s.used == w - r - (if s.push.PushStored? then 1 else 0) - (if s.pop.PopEntered? || s.pop.PopIndexed? then 1 else 0)
  }

  predicate Indices(s: State) {
    && |s.items| > 0
    && (s.push.PushIndexed? ==> s.push.index == |s.pushed| % |s.items|)
    && (s.pop.PopIndexed? ==> s.pop.index == |s.popped| % |s.items|)
  }

  /** Item k, stored and not yet loaded, is in its slot. */
  predicate SlotOk(s: State, k: nat)
    requires |s.items| > 0 && k < |s.pushed|
  {
    s.items[k % |s.items|] == s.pushed[k]
  }

  ghost predicate Slots(s: State) {
    |s.items| > 0 && forall k: nat | |s.popped| <= k < |s.pushed| :: SlotOk(s, k)
  }

  ghost predicate Inv(s: State) {
    Counted(s) && Indices(s) && Slots(s) && s.popped <= s.pushed
  }

  lemma CreateInv(items: seq<Item>)
    requires items != []
    ensures Inv(Create(items))
  {
  }

  lemma IndexInside(k: nat, n: nat)
    requires n > 0
    ensures 0 <= k % n < n && Rem(k, n) == k % n
  {
  }

  lemma InvInBounds(s: State)
    requires Inv(s)
    ensures InBounds(s)
  {
    hide Rem;
    IndexInside(|s.pushed|, |s.items|);
    IndexInside(|s.popped|, |s.items|);
  }

  /** Nearby positions use different slots. */
  lemma SlotsDiffer(a: nat, b: nat, n: nat)
    requires n > 0 && a < b < a + n
    ensures a % n != b % n
  {
    if a % n == b % n {
      var q := b / n - a / n;
      assert b - a == n * q by {
        assert a == n * (a / n) + a % n;
        assert b == n * (b / n) + b % n;
        Distribute(n, b / n, a / n);
      }
      Between(n, q);
    }
  }

  lemma Distribute(n: int, x: int, y: int)
    ensures n * x - n * y == n * (x - y)
  {
  }

  lemma Between(n: nat, q: int)
    ensures !(0 < n * q < n)
  {
    if q <= 0 {
      assert n * q <= 0;
    } else {
      assert n * q >= n;
    }
  }

  /** Steps that touch no slot keep the slots. */
  lemma SlotsSame(s: State, t: State)
    requires Slots(s) && t.items == s.items && t.pushed == s.pushed && t.popped == s.popped
    ensures Slots(t)
  {
    forall k: nat | |t.popped| <= k < |t.pushed| ensures SlotOk(t, k) {
      assert SlotOk(s, k);
    }
  }

  /** A store fills a slot that holds nothing unread. */
  lemma StoreKeeps(s: State)
    requires Inv(s) && s.push.PushIndexed? && InBounds(s)
    ensures Slots(Step(s, Store))
  {
    var t := Step(s, Store);
    var n, w := |s.items|, |s.pushed|;
    forall k: nat | |t.popped| <= k < |t.pushed| ensures SlotOk(t, k) {
      IndexInside(k, n);
      if k < w {
        assert SlotOk(s, k);
        SlotsDiffer(k, w, n);
      }
    }
  }

  lemma LoadKeeps(s: State)
    requires Inv(s) && s.pop.PopIndexed? && InBounds(s)
    ensures var t := Step(s, Load); Slots(t) && t.popped <= t.pushed && t.pop.item == s.pushed[|s.popped|]
  {
    var t := Step(s, Load);
    assert SlotOk(s, |s.popped|);
    forall k: nat | |t.popped| <= k < |t.pushed| ensures SlotOk(t, k) {
      assert SlotOk(s, k);
    }
  }

  /** Every step of either thread keeps the invariant, for the first 2^31 items. */
  lemma StepInv(s: State, a: Action)
    requires Inv(s) && Enabled(s, a) && InBounds(s)
    requires Tickets(s) + (if a.Reserve? then 1 else 0) <= INT_MAX + 1
    ensures Inv(Step(s, a)) && Tickets(Step(s, a)) == Tickets(s) + (if a.Reserve? then 1 else 0)
  {
    hide Slots, SlotOk, Counter;
    var t := Step(s, a);
    CounterNext(|s.pushed|);
    CounterNext(|s.popped|);
    match a
    case Store =>
      StoreKeeps(s);
    case Load =>
      LoadKeeps(s);
    case Reserve =>
      IndexInside(|s.pushed|, |s.items|);
      SlotsSame(s, t);
    case Take =>
      IndexInside(|s.popped|, |s.items|);
      SlotsSame(s, t);
    case _ =>
      SlotsSame(s, t);
  }

  // ---- Runs.

  function Reserves(run: seq<Action>): nat {
    if run == [] then 0 else (if run[0].Reserve? then 1 else 0) + Reserves(run[1..])
  }

  /** t follows from s by a run of enabled steps. */
  ghost predicate Reaches(s: State, run: seq<Action>, t: State)
    decreases |run|
  {
    if run == [] then s == t
    else Enabled(s, run[0]) && InBounds(s) && Reaches(Step(s, run[0]), run[1..], t)
  }

  /** Under every interleaving the queue is a bounded FIFO: what was popped is a prefix of what was
      pushed, permits are conserved, no index leaves the ring and no semaphore overflows. */
  lemma {:induction false} RunInv(s: State, run: seq<Action>, t: State)
    requires Inv(s) && Reaches(s, run, t) && Tickets(s) + Reserves(run) <= INT_MAX + 1
    ensures Inv(t) && InBounds(t)
    decreases |run|
  {
    hide Inv, Enabled, InBounds, Step;
    InvInBounds(s);
    if run != [] {
      StepInv(s, run[0]);
      RunInv(Step(s, run[0]), run[1..], t);
    }
  }

  lemma Fifo(items: seq<Item>, run: seq<Action>, t: State)
    requires items != [] && Reaches(Create(items), run, t) && Reserves(run) <= INT_MAX + 1
    ensures InBounds(t)
    ensures t.popped <= t.pushed && |t.pushed| - |t.popped| <= |items|
    ensures t.free + t.used + InFlight(t) == |t.items|
    ensures t.push.PushStored? ==> t.used < |t.items|
    ensures t.pop.PopLoaded? ==> t.free < |t.items|
  {
    CreateInv(items);
    RunInv(Create(items), run, t);
    RunSize(Create(items), run, t);
  }

  lemma {:induction false} RunSize(s: State, run: seq<Action>, t: State)
    requires Reaches(s, run, t)
    ensures |t.items| == |s.items|
    decreases |run|
  {
    if run != [] {
      RunSize(Step(s, run[0]), run[1..], t);
    }
  }

  /** A thread that waits is waiting for the other one: some step can always be taken, whatever the
      pushing thread wants to push. */
  lemma NeverStuck(s: State, item: Item)
    requires Inv(s)
    ensures exists a: Action :: (a.Enter? ==> a.item == item) && Enabled(s, a)
  {
    hide Inv;
    assert Counted(s) by { CountedOf(s); }
    if s.push.PushIdle? && s.pop.PopIdle? {
      assert Enabled(s, Enter(item)) || Enabled(s, Await);
    } else if s.push.PushIdle? {
      assert Enabled(s, Take) || Enabled(s, Load) || Enabled(s, Return);
    } else {
      assert Enabled(s, Reserve) || Enabled(s, Store) || Enabled(s, Announce);
    }
  }

  lemma CountedOf(s: State)
    requires Inv(s)
    ensures Counted(s)
  {
  }

  /** queue_try_push gives up only when every slot is taken by an item not yet returned. */
  lemma TryPushFails(s: State, item: Item)
    requires Inv(s) && s.push.PushIdle?
    ensures !Enabled(s, Enter(item)) <==>
              |s.pushed| - |s.popped| + (if s.pop.PopLoaded? then 1 else 0) == |s.items|
  {
  }

  /** queue_try_pop gives up only when nothing is stored that is not being popped. */
  lemma TryPopFails(s: State)
    requires Inv(s) && s.pop.PopIdle?
    ensures !Enabled(s, Await) <==> |s.pushed| == |s.popped| + (if s.push.PushStored? then 1 else 0)
  {
  }

  // ---- The end of the counters.

  lemma {:induction false} ReachesJoin(s: State, a: seq<Action>, t: State, b: seq<Action>, u: State)
    requires Reaches(s, a, t) && Reaches(t, b, u)
    ensures Reaches(s, a + b, u) && Reserves(a + b) == Reserves(a) + Reserves(b)
    decreases |a|
  {
    hide Step, Enabled, InBounds;
    if a == [] {
      assert a + b == b;
    } else {
      assert (a + b)[0] == a[0] && (a + b)[1..] == a[1..] + b;
      ReachesJoin(Step(s, a[0]), a[1..], t, b, u);
    }
  }

  lemma ReachesOne(s: State, a: Action)
    requires Enabled(s, a) && InBounds(s)
    ensures Reaches(s, [a], Step(s, a)) && Reserves([a]) == if a.Reserve? then 1 else 0
  {
    hide Step, Enabled, InBounds;
    assert [a][1..] == [];
    assert Reaches(Step(s, a), [], Step(s, a));
  }

  /** No operation is under way and nothing is in the ring. */
  predicate Empty(s: State) { s.push.PushIdle? && s.pop.PopIdle? && |s.pushed| == |s.popped| }

  /** One more step of a run. */
  lemma RunOn(s: State, run: seq<Action>, t: State, a: Action)
    requires Reaches(s, run, t) && Enabled(t, a) && InBounds(t)
    ensures Reaches(s, run + [a], Step(t, a)) && Reserves(run + [a]) == Reserves(run) + if a.Reserve? then 1 else 0
  {
    hide Step, Enabled, InBounds;
    ReachesOne(t, a);
    ReachesJoin(s, run, t, [a], Step(t, a));
  }

  /** A step of a run that keeps the invariant. */
  lemma RunStep(s: State, run: seq<Action>, t: State, a: Action)
    requires Reaches(s, run, t) && Inv(t) && Enabled(t, a) && Tickets(t) + (if a.Reserve? then 1 else 0) <= INT_MAX + 1
    ensures InBounds(t) && Inv(Step(t, a)) && Tickets(Step(t, a)) == Tickets(t) + (if a.Reserve? then 1 else 0)
    ensures Reaches(s, run + [a], Step(t, a)) && Reserves(run + [a]) == Reserves(run) + if a.Reserve? then 1 else 0
  {
    hide Inv, Step, Enabled, InBounds, Reaches;
    InvInBounds(t);
    StepInv(t, a);
    RunOn(s, run, t, a);
  }

  /** One item is pushed. */
  lemma PushOne(s: State, run: seq<Action>, t: State) returns (run': seq<Action>, t': State)
    requires Reaches(s, run, t) && Inv(t) && t.push.PushIdle? && t.pop.PopIdle? && t.free > 0 && |t.pushed| <= INT_MAX
    ensures Reaches(s, run', t') && Inv(t') && Reserves(run') == Reserves(run) + 1 && |t'.items| == |t.items|
    ensures t'.push.PushIdle? && t'.pop.PopIdle? && |t'.pushed| == |t.pushed| + 1 && t'.popped == t.popped
  {
    hide Inv, Reaches, Reserves, Rem;
    RunStep(s, run, t, Enter(0));
    var t1 := Step(t, Enter(0));
    RunStep(s, run + [Enter(0)], t1, Reserve);
    var t2 := Step(t1, Reserve);
    RunStep(s, run + [Enter(0)] + [Reserve], t2, Store);
    var t3 := Step(t2, Store);
    RunStep(s, run + [Enter(0)] + [Reserve] + [Store], t3, Announce);
    run', t' := run + [Enter(0)] + [Reserve] + [Store] + [Announce], Step(t3, Announce);
  }

  /** And popped again. */
  lemma PopOne(s: State, run: seq<Action>, t: State) returns (run': seq<Action>, t': State)
    requires Reaches(s, run, t) && Inv(t) && t.push.PushIdle? && t.pop.PopIdle? && t.used > 0 && |t.pushed| <= INT_MAX + 1
    ensures Reaches(s, run', t') && Inv(t') && Reserves(run') == Reserves(run) && |t'.items| == |t.items|
    ensures t'.push.PushIdle? && t'.pop.PopIdle? && t'.pushed == t.pushed && |t'.popped| == |t.popped| + 1
  {
    hide Inv, Reaches, Reserves, Rem;
    RunStep(s, run, t, Await);
    var t1 := Step(t, Await);
    RunStep(s, run + [Await], t1, Take);
    var t2 := Step(t1, Take);
    RunStep(s, run + [Await] + [Take], t2, Load);
    var t3 := Step(t2, Load);
    RunStep(s, run + [Await] + [Take] + [Load], t3, Return);
    run', t' := run + [Await] + [Take] + [Load] + [Return], Step(t3, Return);
  }

  /** Any number of items up to 2^31 can be pushed and popped one by one. */
  lemma {:induction false} Cycles(items: seq<Item>, k: nat) returns (run: seq<Action>, t: State)
    requires items != [] && k <= INT_MAX + 1
    ensures Reaches(Create(items), run, t) && Reserves(run) == k && Inv(t) && Empty(t) && |t.pushed| == k
    ensures |t.items| == |items|
    decreases k
  {
    hide Inv, Reserves;
    if k == 0 {
      CreateInv(items);
      NoReserves();
      run, t := [], Create(items);
    } else {
      run, t := Cycles(items, k - 1);
      Permits(t);
      run, t := PushOne(Create(items), run, t);
      Permits(t);
      run, t := PopOne(Create(items), run, t);
    }
  }

  lemma NoReserves()
    ensures Reserves([]) == 0
  {
  }

  lemma Permits(t: State)
    requires Inv(t) && t.push.PushIdle? && t.pop.PopIdle?
    ensures |t.items| > 0 && |t.pushed| >= |t.popped|
    ensures t.free == |t.items| + |t.popped| - |t.pushed| && t.used == |t.pushed| - |t.popped|
    ensures t.tail == Counter(|t.pushed|)
  {
    hide Slots, Counter;
  }

  /** After 2^31 items the counter is negative. In a ring of two slots or more, the push after them, or
      the one after that when the capacity divides 2^31, is left with an index outside the ring. */
  lemma WrapLeavesTheRing(items: seq<Item>) returns (run: seq<Action>, t: State)
    requires |items| >= 2
    ensures Reaches(Create(items), run, t) && t.push.PushIndexed? && t.push.index < 0 && !InBounds(t)
    ensures Reserves(run) == INT_MAX + 1 + (if 0x8000_0000 % |items| == 0 then 2 else 1)
  {
    hide Inv, Reaches, Reserves, Rem, Counter;
    var top := INT_MAX + 1;
    var s := Create(items);
    run, t := Cycles(items, top);
    Permits(t);
    TopCounter();
    assert t.tail == -top;
    QuietInBounds(t);
    if 0x8000_0000 % |items| == 0 {
      NegativeRem(top, |items|);
      assert Rem(t.tail, |items|) == 0;
      run, t := OutOfOrder(s, run, t);
      OneBelow(top, |items|);
      assert t.tail == -(top - 1);
      NegativeRem(top - 1, |items|);
    } else {
      NegativeRem(top, |items|);
    }
    run, t := LastTicket(s, run, t);
  }

  lemma TopCounter()
    ensures Counter(INT_MAX + 1) == -(INT_MAX + 1)
  {
  }

  lemma QuietInBounds(t: State)
    requires t.push.PushIdle? && t.pop.PopIdle? && |t.items| > 0
    ensures InBounds(t)
  {
  }

  lemma NegativeRem(x: int, n: nat)
    requires n > 0 && x > 0
    ensures Rem(-x, n) == -(x % n)
  {
  }

  lemma OneBelow(x: nat, n: nat)
    requires n >= 2 && x > 0 && x % n == 0
    ensures (x - 1) % n != 0
  {
    if (x - 1) % n == 0 {
      SlotsDiffer(x - 1, x, n);
    }
  }

  /** A push whose index is 0 although the counter is negative. */
  lemma OutOfOrder(s: State, run: seq<Action>, t: State) returns (run': seq<Action>, t': State)
    requires Reaches(s, run, t) && t.push.PushIdle? && t.pop.PopIdle? && t.free >= 2 && |t.items| >= 2 && t.tail < 0
    requires Rem(t.tail, |t.items|) == 0
    ensures Reaches(s, run', t') && Reserves(run') == Reserves(run) + 1
    ensures t'.push.PushIdle? && t'.pop.PopIdle? && t'.free >= 1 && t'.tail == t.tail + 1 && |t'.items| == |t.items|
  {
    hide Reaches, Reserves, Rem;
    RunOn(s, run, t, Enter(0));
    var t1 := Step(t, Enter(0));
    RunOn(s, run + [Enter(0)], t1, Reserve);
    var t2 := Step(t1, Reserve);
    RunOn(s, run + [Enter(0)] + [Reserve], t2, Store);
    var t3 := Step(t2, Store);
    RunOn(s, run + [Enter(0)] + [Reserve] + [Store], t3, Announce);
    run', t' := run + [Enter(0)] + [Reserve] + [Store] + [Announce], Step(t3, Announce);
  }

  /** A push whose index is negative. */
  lemma LastTicket(s: State, run: seq<Action>, t: State) returns (run': seq<Action>, t': State)
    requires Reaches(s, run, t) && t.push.PushIdle? && t.pop.PopIdle? && t.free >= 1 && |t.items| >= 2
    requires Rem(t.tail, |t.items|) < 0
    ensures Reaches(s, run', t') && Reserves(run') == Reserves(run) + 1
    ensures t'.push.PushIndexed? && t'.push.index < 0 && !InBounds(t')
  {
    hide Reaches, Reserves, Rem;
    RunOn(s, run, t, Enter(0));
    var t1 := Step(t, Enter(0));
    RunOn(s, run + [Enter(0)], t1, Reserve);
    run', t' := run + [Enter(0)] + [Reserve], Step(t1, Reserve);
  }

  /** A ring of one slot is never left, however often it is used. */
  lemma {:induction false} SingleSlot(s: State, run: seq<Action>, t: State)
    requires InBounds(s) && |s.items| == 1 && Reaches(s, run, t)
    ensures InBounds(t)
    decreases |run|
  {
    if run != [] {
      SingleSlot(Step(s, run[0]), run[1..], t);
    }
  }

  // ---- The operations, uninterrupted.

  /** queue_push after acquiring the semaphore: its four steps. */
  function PushSteps(s: State, item: Item): State
    requires s.push.PushIdle? && s.free > 0 && |s.items| > 0 && InBounds(s)
    requires 0 <= Rem(s.tail, |s.items|) < |s.items|
  {
    Step(Step(Step(Step(s, Enter(item)), Reserve), Store), Announce)
  }

  function PopSteps(s: State): State
    requires s.pop.PopIdle? && s.used > 0 && |s.items| > 0 && InBounds(s)
    requires 0 <= Rem(s.head, |s.items|) < |s.items|
  {
    Step(Step(Step(Step(s, Await), Take), Load), Return)
  }

  lemma PushStepsInv(s: State, item: Item)
    requires Inv(s) && s.push.PushIdle? && s.pop.PopIdle? && |s.pushed| <= INT_MAX && s.free > 0
    ensures 0 <= Rem(s.tail, |s.items|) < |s.items| && InBounds(s)
    ensures var t := PushSteps(s, item);
            Inv(t) && t.push.PushIdle? && t.pop.PopIdle? && t.pushed == s.pushed + [item] && t.popped == s.popped
            && t.free == s.free - 1
  {
    IndexInside(s.tail, |s.items|);
    InvInBounds(s);
    var s1 := Step(s, Enter(item));
    StepInv(s, Enter(item));
    var s2 := Step(s1, Reserve);
    assert s1.tail == s.tail;
    StepInv(s1, Reserve);
    hide Inv;
    StoreInv(s2);
    var s3 := Step(s2, Store);
    AnnounceInv(s3);
  }

  lemma StoreInv(s: State)
    requires Inv(s) && s.push.PushIndexed? && InBounds(s)
    ensures Inv(Step(s, Store))
  {
    hide Slots, SlotOk;
    StoreKeeps(s);
  }

  lemma AnnounceInv(s: State)
    requires Inv(s) && s.push.PushStored? && InBounds(s)
    ensures Inv(Step(s, Announce))
  {
    hide Slots, SlotOk;
    SlotsSame(s, Step(s, Announce));
  }

  lemma PopStepsInv(s: State)
    requires Inv(s) && s.push.PushIdle? && s.pop.PopIdle? && |s.pushed| <= INT_MAX + 1 && s.used > 0
    ensures 0 <= Rem(s.head, |s.items|) < |s.items| && InBounds(s) && |s.popped| < |s.pushed|
    ensures var t := PopSteps(s);
            Inv(t) && t.push.PushIdle? && t.pop.PopIdle? && t.pushed == s.pushed
            && t.popped == s.popped + [s.pushed[|s.popped|]] && t.used == s.used - 1
  {
    IndexInside(s.head, |s.items|);
    InvInBounds(s);
    var s1 := Step(s, Await);
    StepInv(s, Await);
    var s2 := Step(s1, Take);
    assert s1.tail == s.tail;
    StepInv(s1, Take);
    assert s2.tail == s.tail;
    LoadKeeps(s2);
    var s3 := Step(s2, Load);
    StepInv(s2, Load);
    StepInv(s3, Return);
  }

  /** queue_t as an object, with the history of what went in and out. */
  class Ring {
    const items: array<Item>
    var tail: int
    var head: int
    var free: nat
    var used: nat
    ghost var pushed: seq<Item>
    ghost var popped: seq<Item>

    /** The state of the queue when no operation is under way. */
    ghost function Quiet(): State
      reads this, items
    {
      State(items[..], tail, head, free, used, PushIdle, PopIdle, pushed, popped)
    }

    /** queue_create. */
    constructor (capacity: nat)
      requires capacity > 0
      ensures Inv(Quiet()) && fresh(items) && free == capacity && pushed == popped == []
    {
      items := new Item[capacity](_ => 0);
      tail, head, free, used := 0, 0, capacity, 0;
      pushed, popped := [], [];
      new;
      CreateInv(items[..]);
    }

    /** queue_try_push. */
    method TryPush(item: Item) returns (ok: bool)
      requires Inv(Quiet()) && |pushed| <= INT_MAX
      modifies this, items
      ensures Inv(Quiet()) && popped == old(popped)
      ensures ok == (old(|pushed| - |popped|) < items.Length)
      ensures pushed == if ok then old(pushed) + [item] else old(pushed)
    {
      hide Slots, SlotOk, Rem;
      if free == 0 {
        return false;
      }
      ghost var s := Quiet();
      PushStepsInv(s, item);
      free := free - 1;
      var index := Rem(tail, items.Length);
      tail := Increment(tail);
      items[index] := item;
      pushed := pushed + [item];
      used := Release(used, items.Length);
      assert Quiet() == PushSteps(s, item);
      ok := true;
    }

    /** queue_try_pop. */
    method TryPop() returns (ok: bool, item: Item)
      requires Inv(Quiet()) && |pushed| <= INT_MAX + 1
      modifies this
      ensures Inv(Quiet()) && pushed == old(pushed)
      ensures ok == (old(|popped| < |pushed|))
      ensures ok ==> item == pushed[|old(popped)|]
      ensures popped == if ok then old(popped) + [item] else old(popped)
    {
      hide Slots, SlotOk, Rem;
      if used == 0 {
        return false, 0;
      }
      ghost var s := Quiet();
      PopStepsInv(s);
      used := used - 1;
      var index := Rem(head, items.Length);
      head := Increment(head);
      item := items[index];
      popped := popped + [item];
      free := Release(free, items.Length);
      assert Quiet() == PopSteps(s);
      ok := true;
    }
  }
}
