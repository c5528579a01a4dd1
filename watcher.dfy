/** The TTL refresh cache of internal/watcher/watcher.go: a Watcher caches
    the (value, error) pair of a fetch function for `age` nanoseconds.

    Time is an integer count of nanoseconds from Go's zero Time, and each
    operation is given the clock reading `now`. Concurrency becomes
    sequential steps: the outcome of TryRLock is an argument, and the
    goroutine that renews in the background is a counter of renewals in
    flight that CompleteRenewal finishes. fetch is an oracle: `answer` is
    what it returns if it is called. */
module Watcher {
  import opened Errors

  /** The error of the "unfetched" sentinel value. */
  const UnfetchedMessage: string := "watcher value unfetched"

  /** The WatchAllowStale option bit (iota's first value after the blank zero). */
  const WatchAllowStale: bv8 := 1

  /** A cached (v, e) pair; `ok` is set once fetch has produced it. */
  datatype Value<T> = Value(v: T, e: Option<Error>, ok: bool)

  /** What one call of fetch returns. */
  datatype Fetched<T> = Fetched(v: T, e: Option<Error>)

  /** newUnfetchedValue: the zero value of T, the unfetched error, not ok. */
  function NewUnfetchedValue<T>(zero: T): Value<T> {
    Value(zero, Some(Message(UnfetchedMessage)), false)
  }

  predicate AllowsStale(opts: bv8) {
    opts & WatchAllowStale != 0
  }

  // ---------------------------------------------------------------------
  // The watcher as a state machine

  /** What a Watcher is built with: the TTL, the options and T's zero value. */
  datatype Config<T> = Config(age: int, opts: bv8, zero: T)

  /** The cached value and the time it was last fetched, with two counts the
      model keeps: renewals dispatched and not yet finished, and calls of
      fetch made so far. */
  datatype State<T> = State(value: Value<T>, last: int, inFlight: nat, fetches: nat)

  /** A new watcher: the unfetched sentinel, fetched at the zero Time. */
  function Initial<T>(c: Config<T>): State<T> {
    State(NewUnfetchedValue(c.zero), 0, 0, 0)
  }

  /** isValid: the value is fresh while last + age is after now. */
  predicate Fresh<T>(c: Config<T>, s: State<T>, now: int) {
    s.last + c.age > now
  }

  /** renew: one call of fetch, its pair stored as ok, stamped now. */
  function Renewed<T>(s: State<T>, now: int, answer: Fetched<T>): State<T> {
    s.(value := Value(answer.v, answer.e, true), last := now, fetches := s.fetches + 1)
  }

  /** get at `now`: the new state and the value returned. */
  function GetStep<T>(c: Config<T>, s: State<T>, now: int, acquired: bool, answer: Fetched<T>)
    : (State<T>, Value<T>)
  {
    if AllowsStale(c.opts) && !acquired then (s, NewUnfetchedValue(c.zero))
    else if Fresh(c, s, now) then (s, s.value)
    else if AllowsStale(c.opts) then
      (s.(last := now, inFlight := s.inFlight + 1),
       if s.value.ok then s.value else NewUnfetchedValue(c.zero))
    else
      var renewed := Renewed(s, now, answer);
      (renewed, renewed.value)
  }

  /** A background renewal finishing at `now`. */
  function CompleteStep<T>(s: State<T>, now: int, answer: Fetched<T>): State<T>
    requires s.inFlight > 0
  {
    Renewed(s, now, answer).(inFlight := s.inFlight - 1)
  }

  /** One call of Get: the clock reading, TryRLock's outcome, and what fetch
      would return. */
  datatype Call<T> = Call(now: int, acquired: bool, answer: Fetched<T>)

  /** A run of Get calls one after another: the final state and the values
      returned, in order. */
  function Gets<T>(c: Config<T>, s: State<T>, calls: seq<Call<T>>): (r: (State<T>, seq<Value<T>>))
    ensures |r.1| == |calls|
    ensures s.fetches <= r.0.fetches <= s.fetches + |calls|
    ensures s.inFlight <= r.0.inFlight <= s.inFlight + |calls|
    decreases |calls|
  {
    if calls == [] then (s, [])
    else
      var first := GetStep(c, s, calls[0].now, calls[0].acquired, calls[0].answer);
      var rest := Gets(c, first.0, calls[1..]);
      (rest.0, [first.1] + rest.1)
  }

  /** What happens to a watcher: a Get call, or a background renewal that
      finishes (and is a no-op if none is in flight). */
  datatype Event<T> = Read(call: Call<T>) | Finish(at: int, answer: Fetched<T>)

  function EventTime<T>(e: Event<T>): int {
    match e
    case Read(call) => call.now
    case Finish(at, _) => at
  }

  function Step<T>(c: Config<T>, s: State<T>, e: Event<T>): State<T> {
    match e
    case Read(call) => GetStep(c, s, call.now, call.acquired, call.answer).0
    case Finish(at, answer) => if s.inFlight > 0 then CompleteStep(s, at, answer) else s
  }

  function Run<T>(c: Config<T>, s: State<T>, events: seq<Event<T>>): State<T>
    decreases |events|
  {
    if events == [] then s else Run(c, Step(c, s, events[0]), events[1..])
  }

  // ---------------------------------------------------------------------
  // Properties

  /** A new watcher holds the unfetched sentinel and is stale from time `age` on. */
  lemma NewWatcherIsUnfetched<T>(c: Config<T>, now: int)
    ensures !Initial(c).value.ok && Initial(c).value.e == Some(Message(UnfetchedMessage))
    ensures Fresh(c, Initial(c), now) <==> now < c.age
  {
  }

  /** While the value is fresh, every Get returns it (or, in allow-stale mode,
      the sentinel when TryRLock fails), and nothing changes: no fetch, no
      renewal, no new timestamp. */
  lemma {:induction false} ServedUntilExpiry<T>(c: Config<T>, s: State<T>, calls: seq<Call<T>>)
    requires forall k :: 0 <= k < |calls| ==> Fresh(c, s, calls[k].now)
    ensures Gets(c, s, calls).0 == s
    ensures forall k :: 0 <= k < |calls| ==>
      Gets(c, s, calls).1[k] ==
        if AllowsStale(c.opts) && !calls[k].acquired then NewUnfetchedValue(c.zero) else s.value
    decreases |calls|
  {
    if calls != [] {
      ServedUntilExpiry(c, s, calls[1..]);
      var rest := Gets(c, s, calls[1..]);
      assert Gets(c, s, calls).1 == [GetStep(c, s, calls[0].now, calls[0].acquired, calls[0].answer).1] + rest.1;
      forall k | 1 <= k < |calls|
        ensures Gets(c, s, calls).1[k] ==
          if AllowsStale(c.opts) && !calls[k].acquired then NewUnfetchedValue(c.zero) else s.value
      {
        assert calls[1..][k - 1] == calls[k];
      }
    }
  }

  /** In blocking mode a stale Get calls fetch once and returns what it
      gave, error included; that pair is then returned by every Get until the
      TTL lapses, without another fetch. The first Get after that fetches
      again. */
  lemma CachedUntilExpiry<T>(c: Config<T>, s: State<T>, t0: int, answer: Fetched<T>,
                             calls: seq<Call<T>>, later: Call<T>)
    requires !AllowsStale(c.opts) && !Fresh(c, s, t0)
    requires forall k :: 0 <= k < |calls| ==> calls[k].now < t0 + c.age
    requires later.now >= t0 + c.age
    ensures var (s1, r1) := GetStep(c, s, t0, true, answer);
      && r1 == Value(answer.v, answer.e, true)
      && s1.last == t0 && s1.fetches == s.fetches + 1
      && Gets(c, s1, calls).0 == s1
      && (forall k :: 0 <= k < |calls| ==> Gets(c, s1, calls).1[k] == r1)
      && GetStep(c, s1, later.now, later.acquired, later.answer).0.fetches == s.fetches + 2
  {
    var s1 := GetStep(c, s, t0, true, answer).0;
    ServedUntilExpiry(c, s1, calls);
  }

  /** Single flight in allow-stale mode: a stale Get moves `last` to now and
      dispatches one renewal; while that renewal has not finished, every Get
      until the TTL lapses dispatches nothing more, calls no fetch, and is
      served the old value (or the sentinel). Once it finishes, Gets are
      served its result (RenewalIsServed). */
  lemma SingleFlight<T>(c: Config<T>, s: State<T>, t0: int, answer: Fetched<T>, calls: seq<Call<T>>)
    requires AllowsStale(c.opts) && !Fresh(c, s, t0)
    requires forall k :: 0 <= k < |calls| ==> calls[k].now < t0 + c.age
    ensures var (s1, r1) := GetStep(c, s, t0, true, answer);
      var (sn, rs) := Gets(c, s1, calls);
      && r1 == (if s.value.ok then s.value else NewUnfetchedValue(c.zero))
      && sn.inFlight == s.inFlight + 1 && sn.fetches == s.fetches
      && sn.value == s.value && sn.last == t0
      && (forall k :: 0 <= k < |calls| ==> rs[k] == s.value || rs[k] == NewUnfetchedValue(c.zero))
  {
    var s1 := GetStep(c, s, t0, true, answer).0;
    ServedUntilExpiry(c, s1, calls);
  }

  /** A finished background renewal is what the next fresh Get returns. */
  lemma RenewalIsServed<T>(c: Config<T>, s: State<T>, t1: int, answer: Fetched<T>, call: Call<T>)
    requires s.inFlight > 0
    requires call.now < t1 + c.age
    requires !AllowsStale(c.opts) || call.acquired
    ensures var s1 := CompleteStep(s, t1, answer);
      GetStep(c, s1, call.now, call.acquired, call.answer) == (s1, Value(answer.v, answer.e, true))
  {
  }

  /** When the clock never runs backwards, `last` never decreases, whatever
      mix of Get calls and finished renewals happens. */
  lemma {:induction false} LastNeverDecreases<T>(c: Config<T>, s: State<T>, events: seq<Event<T>>)
    requires forall k :: 0 <= k < |events| ==> s.last <= EventTime(events[k])
    requires forall j, k :: 0 <= j < k < |events| ==> EventTime(events[j]) <= EventTime(events[k])
    ensures Run(c, s, events).last >= s.last
    decreases |events|
  {
    if events != [] {
      var s1 := Step(c, s, events[0]);
      assert s1.last == s.last || s1.last == EventTime(events[0]);
      forall k | 0 <= k < |events| - 1 ensures s1.last <= EventTime(events[1..][k]) {
        assert events[1..][k] == events[k + 1];
      }
      forall j, k | 0 <= j < k < |events| - 1 ensures EventTime(events[1..][j]) <= EventTime(events[1..][k]) {
        assert events[1..][j] == events[j + 1] && events[1..][k] == events[k + 1];
      }
      LastNeverDecreases(c, s1, events[1..]);
    }
  }

  // ---------------------------------------------------------------------
  // The watcher object

  class Watcher<T> {
    var value: Value<T>
    var last: int
    /** Background renewals dispatched and not yet finished. */
    ghost var inFlight: nat
    /** Calls of fetch made so far. */
    ghost var fetches: nat

    const age: int
    const opts: bv8
    /** The zero value of T, which the sentinel carries. */
    const zero: T

    ghost function Settings(): Config<T> {
      Config(age, opts, zero)
    }

    ghost function Model(): State<T>
      reads this
    {
      State(value, last, inFlight, fetches)
    }

    /** Watch: a watcher holding the unfetched sentinel, last fetched at the
        zero Time. */
    constructor (age: int, opts: bv8, zero: T)
      ensures this.age == age && this.opts == opts && this.zero == zero
      ensures value == NewUnfetchedValue(zero) && last == 0
      ensures Model() == Initial(Settings())
    {
      this.age, this.opts, this.zero := age, opts, zero;
      value := NewUnfetchedValue(zero);
      last := 0;
      inFlight, fetches := 0, 0;
    }

    predicate IsValid(now: int)
      reads this
    {
      last + age > now
    }

    /** renew: call fetch and store its pair, stamped now. */
    method Renew(now: int, answer: Fetched<T>)
      modifies this
      ensures value == Value(answer.v, answer.e, true) && last == now
      ensures fetches == old(fetches) + 1 && inFlight == old(inFlight)
      ensures Model() == Renewed(old(Model()), now, answer)
    {
      value := Value(answer.v, answer.e, true);
      fetches := fetches + 1;
      last := now;
    }

    /** get: serve the cached value while fresh, otherwise renew in place
        (blocking) or dispatch a renewal and serve the old value (allow-stale). */
    method GetValue(now: int, acquired: bool, answer: Fetched<T>) returns (r: Value<T>)
      modifies this
      ensures (Model(), r) == GetStep(Settings(), old(Model()), now, acquired, answer)
      ensures AllowsStale(opts) && !acquired ==>
        r == NewUnfetchedValue(zero) && Model() == old(Model())
      ensures (!AllowsStale(opts) || acquired) && old(IsValid(now)) ==>
        r == old(value) && Model() == old(Model())
      ensures !AllowsStale(opts) && !old(IsValid(now)) ==>
        && value == Value(answer.v, answer.e, true) && last == now && r == value
        && fetches == old(fetches) + 1 && inFlight == old(inFlight)
      ensures AllowsStale(opts) && acquired && !old(IsValid(now)) ==>
        && value == old(value) && last == now
        && inFlight == old(inFlight) + 1 && fetches == old(fetches)
        && r == (if old(value).ok then old(value) else NewUnfetchedValue(zero))
      ensures AllowsStale(opts) ==> value == old(value)
    {
      if AllowsStale(opts) {
        if !acquired {
          return NewUnfetchedValue(zero);
        }
      }
      // Under the read lock.
      var prev := value;
      var ok := IsValid(now);
      if ok {
        return prev;
      }
      // Under the write lock: another caller may have renewed meanwhile.
      if IsValid(now) {
        return value;
      }
      if AllowsStale(opts) {
        last := now;
        // go func() { lock; renew; unlock }()
        inFlight := inFlight + 1;
        if !prev.ok {
          return NewUnfetchedValue(zero);
        }
        return prev;
      } else {
        Renew(now, answer);
        return value;
      }
    }

    /** Get: the value and error of what get returns. */
    method Get(now: int, acquired: bool, answer: Fetched<T>) returns (v: T, e: Option<Error>)
      modifies this
      ensures var (s, r) := GetStep(Settings(), old(Model()), now, acquired, answer);
        Model() == s && v == r.v && e == r.e
    {
      var r := GetValue(now, acquired, answer);
      v, e := r.v, r.e;
    }

    /** The background goroutine of allow-stale mode finishing at `now`:
        under the write lock it renews the value. */
    method CompleteRenewal(now: int, answer: Fetched<T>)
      requires inFlight > 0
      modifies this
      ensures value == Value(answer.v, answer.e, true) && last == now
      ensures inFlight == old(inFlight) - 1 && fetches == old(fetches) + 1
      ensures Model() == CompleteStep(old(Model()), now, answer)
    {
      Renew(now, answer);
      inFlight := inFlight - 1;
    }
  }
}
