/**
 The expiry cache the pipeline touches, as an abstract map from topic to the
 stored value and the time its timer fires, and the bridge as a whole as a
 step function over sensor data events and timer firings.

 The map stands for the `memory-cache` library, which is not part of this
 model. Its behaviour is taken as given, not proved: a `put` replaces any
 entry for the same key and cancels that entry's timer, so a key has at most
 one live timer; when a timer fires the entry is deleted and the callback
 runs with the key and the stored value. The bridge's callback publishes
 that value to that key.
 */
module ExpiryCache {
  import opened JsValue
  import opened Topics
  import opened Registry
  import opened Pipeline

  /** The stored value of a topic and the time (ms) its timer fires. */
  datatype Entry = Entry(value: Value, deadline: int)

  /** Topic -> its one pending entry. */
  type Cache = map<string, Entry>

  /** The cache after a step and what the step sent to the broker. */
  datatype Outcome = Outcome(cache: Cache, sent: seq<Action>)

  /** `put(topic, value, ttl)` at time `now`: the topic's entry is replaced,
      every other entry is kept. */
  function Put(cache: Cache, topic: string, value: Value, ttl: int, now: int): (c: Cache)
    ensures c.Keys == cache.Keys + {topic}
    ensures c[topic] == Entry(value, now + ttl)
    ensures forall t :: t in cache && t != topic ==> c[t] == cache[t]
  {
    cache[topic := Entry(value, now + ttl)]
  }

  /** The timer of `topic` fires at `now`. A timer that was cancelled by a
      later put is modelled by the entry not being due yet: nothing happens.
      A due entry is deleted and its stored value republished to its topic. */
  function Expire(cache: Cache, topic: string, now: int): (r: Outcome)
    ensures r.cache.Keys <= cache.Keys
    ensures topic !in r.cache <==> topic !in cache || cache[topic].deadline <= now
    ensures forall t :: t in r.cache ==> r.cache[t] == cache[t]
    ensures |r.sent| <= 1
    ensures r.sent != [] <==> topic in cache && cache[topic].deadline <= now
    ensures r.sent != [] ==> r.sent == [Publish(topic, cache[topic].value)]
    ensures r.sent != [] ==> r.cache == cache - {topic}
    ensures r.sent == [] ==> r.cache == cache
    ensures forall t :: t in cache && t != topic ==> t in r.cache && r.cache[t] == cache[t]
  {
    if topic in cache && cache[topic].deadline <= now then
      Outcome(cache - {topic}, [Publish(topic, cache[topic].value)])
    else
      Outcome(cache, [])
  }

  /** Carries out the cache puts of one pipeline call at time `now`, in order;
      publishes go to the broker and leave the cache alone. */
  function Apply(cache: Cache, acts: seq<Action>, now: int): Cache
    decreases |acts|
  {
    if |acts| == 0 then cache
    else
      var next := if acts[0].CachePut? then Put(cache, acts[0].topic, acts[0].value, acts[0].ttl, now) else cache;
      Apply(next, acts[1..], now)
  }

  /** The topics the cache puts of `acts` touch. */
  function PutTopics(acts: seq<Action>): set<string> {
    set a | a in acts && a.CachePut? :: a.topic
  }

  /** Every cache put stores 0 with the fixed time to live. */
  predicate ZeroPuts(acts: seq<Action>) {
    forall a :: a in acts && a.CachePut? ==> a.value == Num(0) && a.ttl == CACHE_TTL
  }

  /** Every stored value is the number 0. */
  predicate HoldsZeros(cache: Cache) {
    forall t :: t in cache ==> cache[t].value == Num(0)
  }

  /** No entry fires later than one time-to-live after `now`. */
  predicate FiresWithinTtl(cache: Cache, now: int) {
    forall t :: t in cache ==> cache[t].deadline <= now + CACHE_TTL
  }

  /** Applying zero-valued puts at `now` re-arms exactly their topics to fire
      at `now + CACHE_TTL` and leaves every other entry as it was. */
  lemma {:induction false} ApplyZeroPuts(cache: Cache, acts: seq<Action>, now: int)
    requires ZeroPuts(acts)
    ensures Apply(cache, acts, now).Keys == cache.Keys + PutTopics(acts)
    ensures forall t :: t in PutTopics(acts) ==> Apply(cache, acts, now)[t] == Entry(Num(0), now + CACHE_TTL)
    ensures forall t :: t in cache && t !in PutTopics(acts) ==> Apply(cache, acts, now)[t] == cache[t]
    decreases |acts|
  {
    if |acts| > 0 {
      var a := acts[0];
      var next := if a.CachePut? then Put(cache, a.topic, a.value, a.ttl, now) else cache;
      assert ZeroPuts(acts[1..]) by {
        forall b | b in acts[1..] && b.CachePut? ensures b.value == Num(0) && b.ttl == CACHE_TTL {
          assert b in acts;
        }
      }
      ApplyZeroPuts(next, acts[1..], now);
      assert acts == [a] + acts[1..];
      assert PutTopics(acts) == (if a.CachePut? then {a.topic} else {}) + PutTopics(acts[1..]);
    }
  }

  /** The cache puts of one pipeline call all store 0 with the fixed TTL. */
  lemma PublishDataZeroPuts(table: ManufacturerTable, registry: FieldRegistry, prefix: string, payload: Payload)
    ensures ZeroPuts(PublishData(table, registry, prefix, payload))
  {
    var acts := PublishData(table, registry, prefix, payload);
    CachePutFollowsPublish(table, registry, prefix, payload);
    forall a | a in acts && a.CachePut? ensures a.value == Num(0) && a.ttl == CACHE_TTL {
      var j :| 0 <= j < |acts| && acts[j] == a;
    }
  }

  /** After one pipeline call at `now`, the topic of every published
      cache-flagged field holds 0 and fires at `now + CACHE_TTL`; no other
      entry changes. */
  lemma PublishDataRearms(cache: Cache, table: ManufacturerTable, registry: FieldRegistry, prefix: string, payload: Payload, now: int)
    ensures var after := Apply(cache, PublishData(table, registry, prefix, payload), now);
      && after.Keys == cache.Keys + PutTopics(PublishData(table, registry, prefix, payload))
      && (forall f :: f in CachedFields(PresentFields(registry, payload)) ==>
            Topic(prefix, f.name) in after && after[Topic(prefix, f.name)] == Entry(Num(0), now + CACHE_TTL))
      && (forall t :: t in cache && t !in PutTopics(PublishData(table, registry, prefix, payload)) ==> after[t] == cache[t])
  {
    var acts := PublishData(table, registry, prefix, payload);
    PublishDataZeroPuts(table, registry, prefix, payload);
    ApplyZeroPuts(cache, acts, now);
    CachePutsMatchCachedFields(table, registry, prefix, payload);
    forall f | f in CachedFields(PresentFields(registry, payload))
      ensures Topic(prefix, f.name) in PutTopics(acts)
    {
      var cf := CachedFields(PresentFields(registry, payload));
      var k :| 0 <= k < |cf| && cf[k] == f;
      var put := CachePut(Topic(prefix, f.name), Num(0), CACHE_TTL);
      assert CachePuts(acts)[k] == put;
      CachePutsSubset(acts);
    }
  }

  lemma {:induction false} CachePutsSubset(acts: seq<Action>)
    ensures forall a :: a in CachePuts(acts) ==> a in acts && a.CachePut?
    decreases |acts|
  {
    if |acts| > 0 {
      CachePutsSubset(acts[1..]);
    }
  }

  /** Debounce: a topic put at `t0` does not fire before `t0 + ttl`, however
      long ago an earlier put of the same topic was. */
  lemma NoResetBeforeTtl(cache: Cache, topic: string, value: Value, ttl: int, t0: int, now: int)
    requires now < t0 + ttl
    ensures Expire(Put(cache, topic, value, ttl, t0), topic, now).sent == []
    ensures topic in Expire(Put(cache, topic, value, ttl, t0), topic, now).cache
  {
  }

  /** A topic left quiet for a full time-to-live after its put is reset
      exactly once: one publish of the stored value to the same topic, and
      the entry is gone, so a second firing sends nothing. */
  lemma ResetOnceAfterTtl(cache: Cache, topic: string, value: Value, ttl: int, t0: int, now: int, later: int)
    requires t0 + ttl <= now
    ensures var fired := Expire(Put(cache, topic, value, ttl, t0), topic, now);
      && fired.sent == [Publish(topic, value)]
      && topic !in fired.cache
      && Expire(fired.cache, topic, later).sent == []
  {
  }

  // ---------------------------------------------------------------------
  // The bridge as a whole

  /** What the bridge reacts to: a decoded data event from a sensor, or the
      expiry timer of a topic. */
  datatype Event =
    | AntData(profile: string, deviceId: int, payload: Payload)
    | TimerFires(topic: string)

  /** One event at time `now`: a data event publishes its fields and
      performs its cache puts; a timer firing resets a due topic. */
  function Step(table: ManufacturerTable, registry: FieldRegistry, cache: Cache, now: int, e: Event): Outcome {
    match e
    case AntData(profile, deviceId, payload) =>
      var acts := OnAntData(table, registry, profile, deviceId, payload);
      Outcome(Apply(cache, acts, now), Publishes(acts))
    case TimerFires(topic) =>
      Expire(cache, topic, now)
  }

  /** Every step keeps the cache holding only zeros, and every entry firing
      within one time-to-live of the step's time; a timer step sends at most
      one publish, the value 0 to the timer's own topic. */
  lemma StepInvariant(table: ManufacturerTable, registry: FieldRegistry, cache: Cache, before: int, now: int, e: Event)
    requires HoldsZeros(cache)
    requires FiresWithinTtl(cache, before)
    requires before <= now
    ensures HoldsZeros(Step(table, registry, cache, now, e).cache)
    ensures FiresWithinTtl(Step(table, registry, cache, now, e).cache, now)
    ensures e.TimerFires? ==> Step(table, registry, cache, now, e).sent in {[], [Publish(e.topic, Num(0))]}
  {
    match e
    case AntData(profile, deviceId, payload) =>
      var prefix := Prefix(profile, deviceId);
      var acts := PublishData(table, registry, prefix, payload);
      PublishDataZeroPuts(table, registry, prefix, payload);
      ApplyZeroPuts(cache, acts, now);
    case TimerFires(topic) =>
  }

  /** Runs timed events in order from a given cache. */
  function Run(table: ManufacturerTable, registry: FieldRegistry, cache: Cache, events: seq<(int, Event)>): Outcome
    decreases |events|
  {
    if |events| == 0 then Outcome(cache, [])
    else
      var first := Step(table, registry, cache, events[0].0, events[0].1);
      var rest := Run(table, registry, first.cache, events[1..]);
      Outcome(rest.cache, first.sent + rest.sent)
  }

  /** Event times never go backwards. */
  predicate Ordered(events: seq<(int, Event)>) {
    forall i, j :: 0 <= i < j < |events| ==> events[i].0 <= events[j].0
  }

  /** Over any run with nondecreasing clock, the cache keeps holding only
      zeros and every entry fires within one time-to-live of the last event. */
  lemma {:induction false} RunInvariant(table: ManufacturerTable, registry: FieldRegistry, cache: Cache, start: int, events: seq<(int, Event)>)
    requires HoldsZeros(cache)
    requires FiresWithinTtl(cache, start)
    requires Ordered(events)
    requires forall i :: 0 <= i < |events| ==> start <= events[i].0
    ensures HoldsZeros(Run(table, registry, cache, events).cache)
    ensures FiresWithinTtl(Run(table, registry, cache, events).cache, if |events| == 0 then start else events[|events| - 1].0)
    decreases |events|
  {
    if |events| > 0 {
      var now := events[0].0;
      StepInvariant(table, registry, cache, start, now, events[0].1);
      var first := Step(table, registry, cache, now, events[0].1);
      var rest := events[1..];
      assert Ordered(rest) by {
        forall i, j | 0 <= i < j < |rest| ensures rest[i].0 <= rest[j].0 {
          assert rest[i] == events[i + 1] && rest[j] == events[j + 1];
        }
      }
      assert forall i :: 0 <= i < |rest| ==> now <= rest[i].0 by {
        forall i | 0 <= i < |rest| ensures now <= rest[i].0 {
          assert rest[i] == events[i + 1];
        }
      }
      RunInvariant(table, registry, first.cache, now, rest);
      if |rest| > 0 {
        assert rest[|rest| - 1] == events[|events| - 1];
      }
    }
  }

  // ---------------------------------------------------------------------
  // Debouncing over whole runs

  /** The event `e` puts `topic` into the cache. */
  predicate PutsTopic(table: ManufacturerTable, registry: FieldRegistry, e: Event, topic: string) {
    e.AntData? && topic in PutTopics(OnAntData(table, registry, e.profile, e.deviceId, e.payload))
  }

  /** Every cached topic fires no earlier than one time-to-live after each
      put of it in `events`. */
  predicate Debounced(table: ManufacturerTable, registry: FieldRegistry, cache: Cache, events: seq<(int, Event)>) {
    forall k, topic :: 0 <= k < |events| && topic in cache && PutsTopic(table, registry, events[k].1, topic) ==>
      events[k].0 + CACHE_TTL <= cache[topic].deadline
  }

  /** One event at a time no earlier than any before it keeps the cache debounced. */
  lemma StepDebounced(table: ManufacturerTable, registry: FieldRegistry, cache: Cache, events: seq<(int, Event)>, now: int, e: Event)
    requires Debounced(table, registry, cache, events)
    requires forall k :: 0 <= k < |events| ==> events[k].0 <= now
    ensures Debounced(table, registry, Step(table, registry, cache, now, e).cache, events + [(now, e)])
  {
    var all := events + [(now, e)];
    var after := Step(table, registry, cache, now, e).cache;
    match e
    case AntData(profile, deviceId, payload) =>
      var acts := OnAntData(table, registry, profile, deviceId, payload);
      PublishDataZeroPuts(table, registry, Prefix(profile, deviceId), payload);
      ApplyZeroPuts(cache, acts, now);
      forall k, topic | 0 <= k < |all| && topic in after && PutsTopic(table, registry, all[k].1, topic)
        ensures all[k].0 + CACHE_TTL <= after[topic].deadline
      {
        if topic !in PutTopics(acts) {
          assert k < |events| && all[k] == events[k];
        }
      }
    case TimerFires(t) =>
      forall k, topic | 0 <= k < |all| && topic in after && PutsTopic(table, registry, all[k].1, topic)
        ensures all[k].0 + CACHE_TTL <= after[topic].deadline
      {
        assert k < |events| && all[k] == events[k];
      }
  }

  /** Running `events` after the history `past` keeps the cache debounced
      over the whole history, when the clock never goes backwards. */
  lemma {:induction false} RunDebounced(table: ManufacturerTable, registry: FieldRegistry, cache: Cache, past: seq<(int, Event)>, events: seq<(int, Event)>)
    requires Debounced(table, registry, cache, past)
    requires Ordered(past + events)
    ensures Debounced(table, registry, Run(table, registry, cache, events).cache, past + events)
    decreases |events|
  {
    if |events| == 0 {
      assert past + events == past;
    } else {
      var all := past + events;
      var ev := events[0];
      assert forall k :: 0 <= k < |past| ==> past[k].0 <= ev.0 by {
        forall k | 0 <= k < |past| ensures past[k].0 <= ev.0 {
          assert past[k] == all[k] && ev == all[|past|];
        }
      }
      StepDebounced(table, registry, cache, past, ev.0, ev.1);
      assert (past + [ev]) + events[1..] == all;
      RunDebounced(table, registry, Step(table, registry, cache, ev.0, ev.1).cache, past + [ev], events[1..]);
    }
  }

  /** A reset follows a full quiet period: when, after a run from the empty
      cache, the timer of `topic` fires at `t` and sends a reset, that reset
      is the value 0, and no event of the run put `topic` into the cache in
      the time-to-live before `t`. */
  lemma ResetOnlyAfterQuietTtl(table: ManufacturerTable, registry: FieldRegistry, events: seq<(int, Event)>, t: int, topic: string)
    requires Ordered(events)
    requires forall k :: 0 <= k < |events| ==> events[k].0 <= t
    requires Step(table, registry, Run(table, registry, map[], events).cache, t, TimerFires(topic)).sent != []
    ensures Step(table, registry, Run(table, registry, map[], events).cache, t, TimerFires(topic)).sent
         == [Publish(topic, Num(0))]
    ensures forall k :: 0 <= k < |events| && PutsTopic(table, registry, events[k].1, topic) ==>
      events[k].0 <= t - CACHE_TTL
  {
    var cache := Run(table, registry, map[], events).cache;
    assert [] + events == events;
    RunDebounced(table, registry, map[], [], events);
    var start := if |events| == 0 then t else events[0].0;
    assert forall i :: 0 <= i < |events| ==> start <= events[i].0 by {
      forall i | 0 <= i < |events| ensures start <= events[i].0 {
        if i > 0 {
          assert events[0].0 <= events[i].0;
        }
      }
    }
    RunInvariant(table, registry, map[], start, events);
    assert HoldsZeros(cache);
  }

  /** Without a put, a topic that is not cached stays uncached: however many
      data events of other topics and timer firings come in between, its
      timer sends nothing. So two resets of a topic always have a put of it
      between them. */
  lemma {:induction false} NoResetWithoutPut(table: ManufacturerTable, registry: FieldRegistry, cache: Cache, events: seq<(int, Event)>, t: int, topic: string)
    requires topic !in cache
    requires forall k :: 0 <= k < |events| ==> !PutsTopic(table, registry, events[k].1, topic)
    ensures topic !in Run(table, registry, cache, events).cache
    ensures Step(table, registry, Run(table, registry, cache, events).cache, t, TimerFires(topic)).sent == []
    decreases |events|
  {
    if |events| > 0 {
      var (now, e) := events[0];
      var first := Step(table, registry, cache, now, e);
      if e.AntData? {
        var acts := OnAntData(table, registry, e.profile, e.deviceId, e.payload);
        PublishDataZeroPuts(table, registry, Prefix(e.profile, e.deviceId), e.payload);
        ApplyZeroPuts(cache, acts, now);
        assert !PutsTopic(table, registry, events[0].1, topic);
      }
      assert topic !in first.cache;
      assert forall k :: 0 <= k < |events[1..]| ==> !PutsTopic(table, registry, events[1..][k].1, topic) by {
        forall k | 0 <= k < |events[1..]| ensures !PutsTopic(table, registry, events[1..][k].1, topic) {
          assert events[1..][k] == events[k + 1];
        }
      }
      NoResetWithoutPut(table, registry, first.cache, events[1..], t, topic);
    }
  }

  /** At most one reset per quiet period: after a reset of `topic`, a later
      firing of its timer sends nothing unless some event in between put
      the topic again. */
  lemma ResetOncePerPut(table: ManufacturerTable, registry: FieldRegistry, cache: Cache, t0: int, events: seq<(int, Event)>, t: int, topic: string)
    requires Expire(cache, topic, t0).sent != []
    requires forall k :: 0 <= k < |events| ==> !PutsTopic(table, registry, events[k].1, topic)
    ensures Expire(Run(table, registry, Expire(cache, topic, t0).cache, events).cache, topic, t).sent == []
  {
    NoResetWithoutPut(table, registry, Expire(cache, topic, t0).cache, events, t, topic);
  }

  /** No topic is left stuck: a cached topic that no event puts again, and
      whose own timer does not come due during the run, keeps its entry
      however many other devices' data events and other topics' firings
      come in between; when its timer then fires at or after the deadline,
      the stored value is republished to the topic. */
  lemma {:induction false} ResetAfterQuietRun(table: ManufacturerTable, registry: FieldRegistry, cache: Cache, events: seq<(int, Event)>, t: int, topic: string)
    requires topic in cache
    requires forall k :: 0 <= k < |events| ==> !PutsTopic(table, registry, events[k].1, topic)
    requires forall k :: 0 <= k < |events| && events[k].1 == TimerFires(topic) ==> events[k].0 < cache[topic].deadline
    requires cache[topic].deadline <= t
    ensures topic in Run(table, registry, cache, events).cache
    ensures Run(table, registry, cache, events).cache[topic] == cache[topic]
    ensures Expire(Run(table, registry, cache, events).cache, topic, t).sent == [Publish(topic, cache[topic].value)]
    decreases |events|
  {
    if |events| > 0 {
      var (now, e) := events[0];
      var first := Step(table, registry, cache, now, e);
      if e.AntData? {
        var acts := OnAntData(table, registry, e.profile, e.deviceId, e.payload);
        PublishDataZeroPuts(table, registry, Prefix(e.profile, e.deviceId), e.payload);
        ApplyZeroPuts(cache, acts, now);
        assert !PutsTopic(table, registry, events[0].1, topic);
      } else if e.topic == topic {
        assert events[0].1 == TimerFires(topic);
      }
      assert topic in first.cache && first.cache[topic] == cache[topic];
      var rest := events[1..];
      assert forall k :: 0 <= k < |rest| ==> !PutsTopic(table, registry, rest[k].1, topic) by {
        forall k | 0 <= k < |rest| ensures !PutsTopic(table, registry, rest[k].1, topic) {
          assert rest[k] == events[k + 1];
        }
      }
      assert forall k :: 0 <= k < |rest| && rest[k].1 == TimerFires(topic) ==> rest[k].0 < first.cache[topic].deadline by {
        forall k | 0 <= k < |rest| && rest[k].1 == TimerFires(topic) ensures rest[k].0 < first.cache[topic].deadline {
          assert rest[k] == events[k + 1];
        }
      }
      ResetAfterQuietRun(table, registry, first.cache, rest, t, topic);
    }
  }
}
