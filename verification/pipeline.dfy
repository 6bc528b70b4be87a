/**
 The publish pipeline: `publishData` walks the field registry in order and,
 for each field whose payload value is truthy, publishes the formatted value
 under `<prefix>/<name>` and, for a cache-flagged field, puts the number 0
 into the expiry cache under that topic for `CACHE_TTL` milliseconds.
 `onAntData` builds the prefix from the sensor profile and device id.

 One call is modelled as the sequence of actions it issues, in order. The
 broker's publish callback only logs, so nothing it reports can change the
 actions; the model therefore has no input for publish outcomes.
 */
module Pipeline {
  import opened JsValue
  import opened Topics
  import opened Registry

  /** Milliseconds a cache-flagged topic keeps its last value before it is reset. */
  const CACHE_TTL: int := 60000

  /** What one call hands to its collaborators: a broker publish, or a put
      into the expiry cache (topic, stored value, time to live). */
  datatype Action =
    | Publish(topic: string, value: Value)
    | CachePut(topic: string, value: Value, ttl: int)

  /** The actions for one registry field. */
  function FieldActions(table: ManufacturerTable, prefix: string, f: Field, payload: Payload): seq<Action> {
    var data := Get(payload, f.key);
    if !Truthy(data) then []
    else
      var topic := Topic(prefix, f.name);
      [Publish(topic, Format(table, f.key, data))]
        + (if f.cache then [CachePut(topic, Num(0), CACHE_TTL)] else [])
  }

  /** `publishData(topic, message)`: the actions of every field, in registry order. */
  function PublishData(table: ManufacturerTable, registry: FieldRegistry, prefix: string, payload: Payload): seq<Action>
    decreases |registry|
  {
    if |registry| == 0 then []
    else
      FieldActions(table, prefix, registry[0], payload)
        + PublishData(table, registry[1..], prefix, payload)
  }

  /** `onAntData(profile, deviceId, data)`. */
  function OnAntData(table: ManufacturerTable, registry: FieldRegistry, profile: string, deviceId: int, payload: Payload): seq<Action> {
    PublishData(table, registry, Prefix(profile, deviceId), payload)
  }

  // ---------------------------------------------------------------------
  // Reference definitions the pipeline is measured against

  /** The registry fields whose payload value is truthy, in registry order. */
  function PresentFields(registry: FieldRegistry, payload: Payload): seq<Field>
    decreases |registry|
  {
    if |registry| == 0 then []
    else
      (if Truthy(Get(payload, registry[0].key)) then [registry[0]] else [])
        + PresentFields(registry[1..], payload)
  }

  /** The cache-flagged fields among `fields`, in order. */
  function CachedFields(fields: seq<Field>): seq<Field>
    decreases |fields|
  {
    if |fields| == 0 then []
    else
      (if fields[0].cache then [fields[0]] else []) + CachedFields(fields[1..])
  }

  /** The publish actions of a sequence, in order. */
  function Publishes(acts: seq<Action>): seq<Action>
    decreases |acts|
  {
    if |acts| == 0 then []
    else (if acts[0].Publish? then [acts[0]] else []) + Publishes(acts[1..])
  }

  /** The cache puts of a sequence, in order. */
  function CachePuts(acts: seq<Action>): seq<Action>
    decreases |acts|
  {
    if |acts| == 0 then []
    else (if acts[0].CachePut? then [acts[0]] else []) + CachePuts(acts[1..])
  }

  /** One publish per field: its topic and its formatted payload value. */
  function PublishesFor(table: ManufacturerTable, prefix: string, payload: Payload, fields: seq<Field>): seq<Action> {
    seq(|fields|, i requires 0 <= i < |fields| =>
      Publish(Topic(prefix, fields[i].name), Format(table, fields[i].key, Get(payload, fields[i].key))))
  }

  /** One zero-valued cache put with the fixed time to live per field. */
  function ResetsFor(prefix: string, fields: seq<Field>): seq<Action> {
    seq(|fields|, i requires 0 <= i < |fields| => CachePut(Topic(prefix, fields[i].name), Num(0), CACHE_TTL))
  }

  // ---------------------------------------------------------------------
  // Helper facts about the projections

  lemma {:induction false} PublishesAppend(a: seq<Action>, b: seq<Action>)
    ensures Publishes(a + b) == Publishes(a) + Publishes(b)
    decreases |a|
  {
    if |a| > 0 {
      assert (a + b)[1..] == a[1..] + b;
      PublishesAppend(a[1..], b);
    } else {
      assert a + b == b;
    }
  }

  lemma {:induction false} CachePutsAppend(a: seq<Action>, b: seq<Action>)
    ensures CachePuts(a + b) == CachePuts(a) + CachePuts(b)
    decreases |a|
  {
    if |a| > 0 {
      assert (a + b)[1..] == a[1..] + b;
      CachePutsAppend(a[1..], b);
    } else {
      assert a + b == b;
    }
  }

  lemma PublishesForCons(table: ManufacturerTable, prefix: string, payload: Payload, f: Field, fields: seq<Field>)
    ensures PublishesFor(table, prefix, payload, [f] + fields)
         == [Publish(Topic(prefix, f.name), Format(table, f.key, Get(payload, f.key)))]
            + PublishesFor(table, prefix, payload, fields)
  {
  }

  lemma ResetsForCons(prefix: string, f: Field, fields: seq<Field>)
    ensures ResetsFor(prefix, [f] + fields)
         == [CachePut(Topic(prefix, f.name), Num(0), CACHE_TTL)] + ResetsFor(prefix, fields)
  {
  }

  lemma CachedFieldsCons(f: Field, fields: seq<Field>)
    ensures CachedFields([f] + fields) == (if f.cache then [f] else []) + CachedFields(fields)
  {
    assert ([f] + fields)[1..] == fields;
  }

  // ---------------------------------------------------------------------
  // Properties of one call

  /** The registry walk is compositional: the actions for a registry are the
      actions for its first part followed by those for the rest, so no
      field's value, absence or outcome affects another field's actions. */
  lemma {:induction false} PublishDataAppend(table: ManufacturerTable, r1: FieldRegistry, r2: FieldRegistry, prefix: string, payload: Payload)
    ensures PublishData(table, r1 + r2, prefix, payload)
         == PublishData(table, r1, prefix, payload) + PublishData(table, r2, prefix, payload)
    decreases |r1|
  {
    if |r1| == 0 {
      assert r1 + r2 == r2;
    } else {
      assert (r1 + r2)[0] == r1[0];
      assert (r1 + r2)[1..] == r1[1..] + r2;
      PublishDataAppend(table, r1[1..], r2, prefix, payload);
    }
  }

  /** Exactly one publish per field with a truthy value, none for any other
      field, in registry order, each to `<prefix>/<name>` with the value
      `Format` gives (vendor name for `ManId`, `String(v)` otherwise). */
  lemma {:induction false} PublishesMatchPresentFields(table: ManufacturerTable, registry: FieldRegistry, prefix: string, payload: Payload)
    ensures Publishes(PublishData(table, registry, prefix, payload))
         == PublishesFor(table, prefix, payload, PresentFields(registry, payload))
    decreases |registry|
  {
    if |registry| > 0 {
      var f := registry[0];
      var rest := registry[1..];
      var fa := FieldActions(table, prefix, f, payload);
      PublishesMatchPresentFields(table, rest, prefix, payload);
      PublishesAppend(fa, PublishData(table, rest, prefix, payload));
      if Truthy(Get(payload, f.key)) {
        var p := Publish(Topic(prefix, f.name), Format(table, f.key, Get(payload, f.key)));
        if f.cache {
          assert fa == [p] + [CachePut(Topic(prefix, f.name), Num(0), CACHE_TTL)];
          PublishesAppend([p], [CachePut(Topic(prefix, f.name), Num(0), CACHE_TTL)]);
        } else {
          assert fa == [p];
        }
        assert Publishes(fa) == [p];
        PublishesForCons(table, prefix, payload, f, PresentFields(rest, payload));
      } else {
        assert fa == [];
        assert PresentFields(registry, payload) == PresentFields(rest, payload);
      }
    }
  }

  /** A cache put happens exactly for the published fields whose registry
      entry is cache-flagged, in order, each storing 0 with the fixed TTL. */
  lemma {:induction false} CachePutsMatchCachedFields(table: ManufacturerTable, registry: FieldRegistry, prefix: string, payload: Payload)
    ensures CachePuts(PublishData(table, registry, prefix, payload))
         == ResetsFor(prefix, CachedFields(PresentFields(registry, payload)))
    decreases |registry|
  {
    if |registry| > 0 {
      var f := registry[0];
      var rest := registry[1..];
      var fa := FieldActions(table, prefix, f, payload);
      var pRest := PresentFields(rest, payload);
      CachePutsMatchCachedFields(table, rest, prefix, payload);
      CachePutsAppend(fa, PublishData(table, rest, prefix, payload));
      if Truthy(Get(payload, f.key)) {
        var p := Publish(Topic(prefix, f.name), Format(table, f.key, Get(payload, f.key)));
        var c := CachePut(Topic(prefix, f.name), Num(0), CACHE_TTL);
        assert PresentFields(registry, payload) == [f] + pRest;
        CachedFieldsCons(f, pRest);
        if f.cache {
          assert fa == [p] + [c];
          CachePutsAppend([p], [c]);
          assert CachePuts(fa) == [c];
          ResetsForCons(prefix, f, CachedFields(pRest));
        } else {
          assert fa == [p];
          assert CachePuts(fa) == [];
        }
      } else {
        assert fa == [];
        assert PresentFields(registry, payload) == pRest;
      }
    }
  }

  /** `PresentFields` keeps exactly the registry fields whose value is truthy. */
  lemma {:induction false} PresentFieldsMembers(registry: FieldRegistry, payload: Payload)
    ensures |PresentFields(registry, payload)| <= |registry|
    ensures forall f :: f in PresentFields(registry, payload) <==> f in registry && Truthy(Get(payload, f.key))
    decreases |registry|
  {
    if |registry| > 0 {
      PresentFieldsMembers(registry[1..], payload);
      assert registry == [registry[0]] + registry[1..];
    }
  }

  /** At most one publish per registry field. */
  lemma PublishCountBound(table: ManufacturerTable, registry: FieldRegistry, prefix: string, payload: Payload)
    ensures |Publishes(PublishData(table, registry, prefix, payload))| <= |registry|
  {
    PublishesMatchPresentFields(table, registry, prefix, payload);
    PresentFieldsMembers(registry, payload);
  }

  lemma {:induction false} PublishesSubset(acts: seq<Action>)
    ensures forall a :: a in Publishes(acts) ==> a in acts && a.Publish?
    decreases |acts|
  {
    if |acts| > 0 {
      PublishesSubset(acts[1..]);
    }
  }

  /** Each field with a truthy value is published to its topic with its formatted value. */
  lemma PresentFieldPublished(table: ManufacturerTable, registry: FieldRegistry, prefix: string, payload: Payload, i: int)
    requires 0 <= i < |registry|
    requires Truthy(Get(payload, registry[i].key))
    ensures Publish(Topic(prefix, registry[i].name), Format(table, registry[i].key, Get(payload, registry[i].key)))
            in PublishData(table, registry, prefix, payload)
  {
    var f := registry[i];
    var pf := PresentFields(registry, payload);
    PresentFieldsMembers(registry, payload);
    assert f in pf;
    var k :| 0 <= k < |pf| && pf[k] == f;
    PublishesMatchPresentFields(table, registry, prefix, payload);
    var pubs := Publishes(PublishData(table, registry, prefix, payload));
    assert pubs[k] == Publish(Topic(prefix, f.name), Format(table, f.key, Get(payload, f.key)));
    PublishesSubset(PublishData(table, registry, prefix, payload));
  }

  /** Every action's topic is the topic of a field with a truthy value. */
  lemma {:induction false} ActionTopicsOfPresentFields(table: ManufacturerTable, registry: FieldRegistry, prefix: string, payload: Payload)
    ensures forall a :: a in PublishData(table, registry, prefix, payload) ==>
              exists f :: f in PresentFields(registry, payload) && a.topic == Topic(prefix, f.name)
    decreases |registry|
  {
    if |registry| > 0 {
      var f := registry[0];
      var rest := registry[1..];
      ActionTopicsOfPresentFields(table, rest, prefix, payload);
      var pf := PresentFields(registry, payload);
      forall a | a in PublishData(table, registry, prefix, payload)
        ensures exists g :: g in pf && a.topic == Topic(prefix, g.name)
      {
        if a in PublishData(table, rest, prefix, payload) {
          var g :| g in PresentFields(rest, payload) && a.topic == Topic(prefix, g.name);
          assert g in pf;
        } else {
          assert a in FieldActions(table, prefix, f, payload);
          assert f in pf;
        }
      }
    }
  }

  /** With distinct field names, a field whose value is falsy (absent,
      `null`, `0`, `""` or `false`) gets neither a publish nor a cache put. */
  lemma FalsyFieldSilent(table: ManufacturerTable, registry: FieldRegistry, prefix: string, payload: Payload, i: int)
    requires 0 <= i < |registry|
    requires forall j, k :: 0 <= j < k < |registry| ==> registry[j].name != registry[k].name
    requires !Truthy(Get(payload, registry[i].key))
    ensures forall a :: a in PublishData(table, registry, prefix, payload) ==> a.topic != Topic(prefix, registry[i].name)
  {
    ActionTopicsOfPresentFields(table, registry, prefix, payload);
    PresentFieldsMembers(registry, payload);
    forall a | a in PublishData(table, registry, prefix, payload)
      ensures a.topic != Topic(prefix, registry[i].name)
    {
      var g :| g in PresentFields(registry, payload) && a.topic == Topic(prefix, g.name);
      var j :| 0 <= j < |registry| && registry[j] == g;
      assert j != i;
      TopicNameInjective(prefix, g.name, registry[i].name);
    }
  }

  /** A falsy reading is indistinguishable from a missing one: in
      particular a reading of `0` is never published. */
  lemma {:induction false} FalsyValueUnpublished(table: ManufacturerTable, registry: FieldRegistry, prefix: string, payload: Payload, key: string, v: Value)
    requires !Truthy(v)
    ensures PublishData(table, registry, prefix, payload[key := v])
         == PublishData(table, registry, prefix, payload - {key})
    decreases |registry|
  {
    if |registry| > 0 {
      var f := registry[0];
      FalsyValueUnpublished(table, registry[1..], prefix, payload, key, v);
      assert Get(payload[key := v], f.key) == Get(payload - {key}, f.key) || f.key == key;
    }
  }

  /** Every cache put in `acts` directly follows the publish to the same
      topic, and stores 0 with the fixed time to live. */
  predicate PutsFollowPublishes(acts: seq<Action>) {
    forall j :: 0 <= j < |acts| && acts[j].CachePut? ==>
      && 0 < j
      && acts[j - 1].Publish?
      && acts[j - 1].topic == acts[j].topic
      && acts[j].value == Num(0)
      && acts[j].ttl == CACHE_TTL
  }

  /** Each cache put of a call comes right after the publish of the same
      field, and stores 0 with the fixed time to live. */
  lemma {:induction false} CachePutFollowsPublish(table: ManufacturerTable, registry: FieldRegistry, prefix: string, payload: Payload)
    ensures PutsFollowPublishes(PublishData(table, registry, prefix, payload))
    decreases |registry|
  {
    if |registry| > 0 {
      var fa := FieldActions(table, prefix, registry[0], payload);
      var after := PublishData(table, registry[1..], prefix, payload);
      CachePutFollowsPublish(table, registry[1..], prefix, payload);
      var acts := fa + after;
      assert acts == PublishData(table, registry, prefix, payload);
      forall j | 0 <= j < |acts| && acts[j].CachePut?
        ensures 0 < j && acts[j - 1].Publish? && acts[j - 1].topic == acts[j].topic
        ensures acts[j].value == Num(0) && acts[j].ttl == CACHE_TTL
      {
        if j < |fa| {
          assert acts[j] == fa[j];
          assert j == 1;
          assert acts[j - 1] == fa[0];
        } else {
          var k := j - |fa|;
          assert acts[j] == after[k];
          assert after[k].CachePut?;
          assert acts[j - 1] == after[k - 1];
        }
      }
    }
  }
}
