/** core_runtime/core/audit_trail_index.py: the sorted trail of audit events and its four
    lookup tables. */
module AuditTrail {
  import opened Hashing
  import opened Results
  import opened Ordering
  import opened Canonicalization
  import opened AuditEvents

  // ---- canonical_event_sort_key ----------------------------------------------------

  predicate EventLeq(a: AuditEvent, b: AuditEvent) {
    if a.logicalTick != b.logicalTick then a.logicalTick < b.logicalTick
    else if a.correlationId != b.correlationId then StrLeq(a.correlationId, b.correlationId)
    else if a.eventType != b.eventType then StrLeq(a.eventType, b.eventType)
    else StrLeq(a.eventId, b.eventId)
  }

  /** Ticks never decrease, and events of one tick are sorted by correlation, type and id. */
  ghost predicate InOrder(events: seq<AuditEvent>) {
    forall i, j :: 0 <= i < j < |events| ==>
      var a, b := events[i], events[j];
      && a.logicalTick <= b.logicalTick
      && (a.logicalTick == b.logicalTick ==>
            if a.correlationId != b.correlationId then StrLeq(a.correlationId, b.correlationId)
            else if a.eventType != b.eventType then StrLeq(a.eventType, b.eventType)
            else StrLeq(a.eventId, b.eventId))
  }

  lemma EventOrder()
    ensures TotalPreorder(EventLeq)
    ensures forall a, b :: EventLeq(a, b) && EventLeq(b, a) ==> a.eventId == b.eventId
  {
    forall a, b
      ensures EventLeq(a, b) || EventLeq(b, a)
      ensures EventLeq(a, b) && EventLeq(b, a) ==> a.eventId == b.eventId
    {
      StrOrder(a.correlationId, b.correlationId);
      StrOrder(a.eventType, b.eventType);
      StrOrder(a.eventId, b.eventId);
    }
    forall a, b, c | EventLeq(a, b) && EventLeq(b, c) ensures EventLeq(a, c) { EventTransitive(a, b, c); }
  }

  lemma EventTransitive(a: AuditEvent, b: AuditEvent, c: AuditEvent)
    requires EventLeq(a, b) && EventLeq(b, c)
    ensures EventLeq(a, c)
  {
    if a.logicalTick == b.logicalTick == c.logicalTick {
      if a.correlationId == b.correlationId == c.correlationId {
        if a.eventType == b.eventType == c.eventType {
          StrTransitive(a.eventId, b.eventId, c.eventId);
        } else if StrLeq(a.eventType, b.eventType) && StrLeq(b.eventType, c.eventType) {
          StrTransitive(a.eventType, b.eventType, c.eventType);
          StrOrder(a.eventType, b.eventType);
        }
      } else if StrLeq(a.correlationId, b.correlationId) && StrLeq(b.correlationId, c.correlationId) {
        StrTransitive(a.correlationId, b.correlationId, c.correlationId);
        StrOrder(a.correlationId, b.correlationId);
      }
    }
  }

  ghost predicate DistinctIds(events: seq<AuditEvent>) {
    forall i, j :: 0 <= i < j < |events| ==> events[i].eventId != events[j].eventId
  }

  // ---- What the tables hold --------------------------------------------------------

  function CorrelationOf(e: AuditEvent): string { e.correlationId }
  function TypeOf(e: AuditEvent): string { e.eventType }
  function TickOf(e: AuditEvent): int { e.logicalTick }

  /** A linear scan for the events with a given key. */
  function Scan<K(==)>(events: seq<AuditEvent>, key: AuditEvent -> K, k: K): seq<AuditEvent> {
    if events == [] then []
    else
      var last := events[|events| - 1];
      Scan(events[..|events| - 1], key, k) + if key(last) == k then [last] else []
  }

  function Lookup<K(==), V>(m: map<K, seq<V>>, k: K): seq<V> { if k in m then m[k] else [] }

  /** The table groups exactly the keys that occur, each with its events in order. */
  ghost predicate Groups<K(!new)>(m: map<K, seq<AuditEvent>>, events: seq<AuditEvent>, key: AuditEvent -> K) {
    forall k :: Lookup(m, k) == Scan(events, key, k) && (k in m <==> Scan(events, key, k) != [])
  }

  lemma GroupsSnoc<K(!new)>(m: map<K, seq<AuditEvent>>, events: seq<AuditEvent>, key: AuditEvent -> K, e: AuditEvent)
    requires Groups(m, events, key)
    ensures Groups(m[key(e) := Lookup(m, key(e)) + [e]], events + [e], key)
  {
    assert (events + [e])[..|events|] == events;
  }

  lemma {:induction false} ScanSorted<K>(events: seq<AuditEvent>, key: AuditEvent -> K, k: K)
    requires SortedBy(events, EventLeq)
    ensures SortedBy(Scan(events, key, k), EventLeq)
    ensures forall e :: e in Scan(events, key, k) ==> e in events
  {
    if events != [] {
      var n := |events| - 1;
      ScanSorted(events[..n], key, k);
      var s := Scan(events[..n], key, k);
      forall i | 0 <= i < |s| ensures EventLeq(s[i], events[n]) {
        assert s[i] in s;
        var j := IndexOf(events[..n], s[i]);
        assert EventLeq(events[j], events[n]);
      }
    }
  }

  /** r lists the events at these positions, which are in order. */
  ghost predicate Lists(events: seq<AuditEvent>, r: seq<AuditEvent>, at: seq<nat>) {
    Ascending(at) && |at| == |r| && forall k :: 0 <= k < |at| ==> at[k] < |events| && r[k] == events[at[k]]
  }

  /** Where the events with this key stand. */
  function ScanAt<K(==)>(events: seq<AuditEvent>, key: AuditEvent -> K, k: K): seq<nat> {
    if events == [] then []
    else
      var n := |events| - 1;
      ScanAt(events[..n], key, k) + if key(events[n]) == k then [n] else []
  }

  lemma {:induction false} ScanLists<K>(events: seq<AuditEvent>, key: AuditEvent -> K, k: K)
    ensures Lists(events, Scan(events, key, k), ScanAt(events, key, k))
    ensures forall i: nat :: i in ScanAt(events, key, k) <==> i < |events| && key(events[i]) == k
  {
    if events != [] {
      var n := |events| - 1;
      ScanLists(events[..n], key, k);
      if key(events[n]) == k { AscendingNext(ScanAt(events[..n], key, k), n); }
    }
  }

  /** `tuple(sorted(value))` for every group. */
  function Resort<K>(m: map<K, seq<AuditEvent>>): map<K, seq<AuditEvent>> {
    map k | k in m :: SortBy(m[k], EventLeq)
  }

  /** The groups of a sorted trail are already sorted. */
  lemma ResortIsIdle<K(!new)>(m: map<K, seq<AuditEvent>>, events: seq<AuditEvent>, key: AuditEvent -> K)
    requires Groups(m, events, key) && SortedBy(events, EventLeq)
    ensures Resort(m) == m
  {
    forall k | k in m ensures SortBy(m[k], EventLeq) == m[k] {
      assert Lookup(m, k) == Scan(events, key, k);
      ScanSorted(events, key, k);
      SortKeepsSorted(m[k], EventLeq);
    }
  }

  ghost predicate IdTable(m: map<string, AuditEvent>, events: seq<AuditEvent>) {
    && (forall i :: 0 <= i < |events| ==> events[i].eventId in m && m[events[i].eventId] == events[i])
    && forall id :: id in m ==> m[id] in events && m[id].eventId == id
  }

  datatype Tables = Tables(
    byId: map<string, AuditEvent>,
    byCorrelation: map<string, seq<AuditEvent>>,
    byType: map<string, seq<AuditEvent>>,
    byTick: map<int, seq<AuditEvent>>)

  ghost predicate Consistent(t: Tables, events: seq<AuditEvent>) {
    && IdTable(t.byId, events)
    && Groups(t.byCorrelation, events, CorrelationOf)
    && Groups(t.byType, events, TypeOf)
    && Groups(t.byTick, events, TickOf)
  }

  /** The tables are those of the events, none of which share an id. */
  ghost predicate Fits(t: Tables, events: seq<AuditEvent>) {
    Consistent(t, events) && DistinctIds(events)
  }

  /** One round of the filling loop, for an event with a new id. */
  function Enter(t: Tables, e: AuditEvent): Tables {
    Tables(t.byId[e.eventId := e],
           t.byCorrelation[e.correlationId := Lookup(t.byCorrelation, e.correlationId) + [e]],
           t.byType[e.eventType := Lookup(t.byType, e.eventType) + [e]],
           t.byTick[e.logicalTick := Lookup(t.byTick, e.logicalTick) + [e]])
  }

  lemma IdTableSnoc(m: map<string, AuditEvent>, events: seq<AuditEvent>, e: AuditEvent)
    requires IdTable(m, events) && DistinctIds(events) && e.eventId !in m
    ensures IdTable(m[e.eventId := e], events + [e]) && DistinctIds(events + [e])
  {
    forall i | 0 <= i < |events| ensures events[i].eventId != e.eventId { assert events[i].eventId in m; }
  }

  lemma EnterConsistent(t: Tables, events: seq<AuditEvent>, e: AuditEvent)
    requires Consistent(t, events) && DistinctIds(events) && e.eventId !in t.byId
    ensures Consistent(Enter(t, e), events + [e]) && DistinctIds(events + [e])
  {
    IdTableSnoc(t.byId, events, e);
    GroupsSnoc(t.byCorrelation, events, CorrelationOf, e);
    GroupsSnoc(t.byType, events, TypeOf, e);
    GroupsSnoc(t.byTick, events, TickOf, e);
  }

  lemma ResortedTables(t: Tables, events: seq<AuditEvent>)
    requires Consistent(t, events) && SortedBy(events, EventLeq)
    ensures t == Tables(t.byId, Resort(t.byCorrelation), Resort(t.byType), Resort(t.byTick))
  {
    ResortIsIdle(t.byCorrelation, events, CorrelationOf);
    ResortIsIdle(t.byType, events, TypeOf);
    ResortIsIdle(t.byTick, events, TickOf);
  }

  /** Two events of the list have this id. */
  ghost predicate OccursTwice(events: seq<AuditEvent>, id: string) {
    exists i, j :: 0 <= i < j < |events| && events[i].eventId == events[j].eventId == id
  }

  class AuditTrailIndex {
    var events: seq<AuditEvent>
    var byId: map<string, AuditEvent>
    var byCorrelation: map<string, seq<AuditEvent>>
    var byType: map<string, seq<AuditEvent>>
    var byTick: map<int, seq<AuditEvent>>

    /** The fields before __post_init__. */
    constructor (given: seq<AuditEvent>)
      ensures events == given
    {
      events := given;
      byId, byCorrelation, byType, byTick := map[], map[], map[], map[];
    }

    ghost function View(): Tables
      reads this
    {
      Tables(byId, byCorrelation, byType, byTick)
    }

    /** The events are in canonical order and every table agrees with a scan of them. */
    ghost predicate Valid()
      reads this
    {
      SortedBy(events, EventLeq) && Consistent(View(), events)
    }

    /** __post_init__: the id that occurs twice, if one does; otherwise the index is built. */
    method PostInit() returns (duplicate: Option<string>)
      modifies this
      ensures duplicate.None? <==> DistinctIds(old(events))
      ensures duplicate.None? ==>
                && Valid() && events == SortBy(old(events), EventLeq)
                && InOrder(events) && multiset(events) == multiset(old(events))
      ensures duplicate.Some? ==> unchanged(this) && OccursTwice(events, duplicate.value)
    {
      var trail := SortBy(events, EventLeq);
      var tables;
      duplicate, tables := FillTables(events, trail);
      if duplicate.Some? { return; }
      SortKeepsIds(events);
      SortPermutes(events, EventLeq);
      ResortedTables(tables, trail);
      events := trail;
      byId := tables.byId;
      byCorrelation := Resort(tables.byCorrelation);
      byType := Resort(tables.byType);
      byTick := Resort(tables.byTick);
      assert View() == tables;
    }

    /** The loop of __post_init__ over the sorted events. */
    static method FillTables(ghost given: seq<AuditEvent>, trail: seq<AuditEvent>)
      returns (duplicate: Option<string>, t: Tables)
      requires trail == SortBy(given, EventLeq)
      ensures duplicate.None? ==> DistinctIds(trail) && Consistent(t, trail)
      ensures duplicate.Some? ==> OccursTwice(given, duplicate.value)
    {
      t := Tables(map[], map[], map[], map[]);
      assert Fits(t, trail[..0]);
      for i := 0 to |trail|
        invariant Fits(t, trail[..i])
      {
        var repeated;
        repeated, t := EnterNext(given, trail, i, t);
        if repeated { return Some(trail[i].eventId), t; }
      }
      assert trail[..|trail|] == trail;
      duplicate := None;
    }

    /** One round of the loop: the next event is entered, unless its id is taken. */
    static method EnterNext(ghost given: seq<AuditEvent>, trail: seq<AuditEvent>, i: nat, t: Tables)
      returns (repeated: bool, u: Tables)
      requires trail == SortBy(given, EventLeq) && i < |trail| && Fits(t, trail[..i])
      ensures if repeated then OccursTwice(given, trail[i].eventId) else Fits(u, trail[..i + 1])
    {
      repeated, u := trail[i].eventId in t.byId, t;
      if repeated {
        KnownId(given, trail, i, t.byId);
      } else {
        assert trail[..i + 1] == trail[..i] + [trail[i]];
        EnterConsistent(t, trail[..i], trail[i]);
        u := Enter(t, trail[i]);
      }
    }

    function LookupEvent(id: string): (r: Option<AuditEvent>)
      requires Valid()
      reads this
      ensures r.Some? ==> r.value in events && r.value.eventId == id
      ensures r.None? ==> forall i :: 0 <= i < |events| ==> events[i].eventId != id
    {
      if id in byId then Some(byId[id]) else None
    }

    function LookupCorrelation(id: string): (r: seq<AuditEvent>)
      requires Valid()
      reads this
      ensures r == Scan(events, CorrelationOf, id)
      ensures exists at :: Lists(events, r, at)
                           && forall i: nat :: i in at <==> i < |events| && events[i].correlationId == id
    {
      ScanLists(events, CorrelationOf, id);
      Lookup(byCorrelation, id)
    }

    function LookupType(eventType: string): (r: seq<AuditEvent>)
      requires Valid()
      reads this
      ensures r == Scan(events, TypeOf, eventType)
      ensures exists at :: Lists(events, r, at)
                           && forall i: nat :: i in at <==> i < |events| && events[i].eventType == eventType
    {
      ScanLists(events, TypeOf, eventType);
      Lookup(byType, eventType)
    }

    function LookupTick(tick: int): (r: seq<AuditEvent>)
      requires Valid()
      reads this
      ensures r == Scan(events, TickOf, tick)
      ensures exists at :: Lists(events, r, at)
                           && forall i: nat :: i in at <==> i < |events| && events[i].logicalTick == tick
    {
      ScanLists(events, TickOf, tick);
      Lookup(byTick, tick)
    }
  }

  lemma {:induction false} KnownId(given: seq<AuditEvent>, trail: seq<AuditEvent>, i: nat, m: map<string, AuditEvent>)
    requires trail == SortBy(given, EventLeq) && i < |trail|
    requires IdTable(m, trail[..i]) && trail[i].eventId in m
    ensures OccursTwice(given, trail[i].eventId)
  {
    var k := IndexOf(trail[..i], m[trail[i].eventId]);
    RepeatedId(given, trail, k, i);
  }

  lemma {:induction false} RepeatedId(events: seq<AuditEvent>, trail: seq<AuditEvent>, k: nat, i: nat)
    requires trail == SortBy(events, EventLeq) && k < i < |trail| && trail[k].eventId == trail[i].eventId
    ensures OccursTwice(events, trail[i].eventId)
  {
    SortPermutes(events, EventLeq);
    if trail[k] != trail[i] {
      assert trail[k] in multiset(trail) && trail[i] in multiset(trail);
      var a := IndexOf(events, trail[k]);
      var b := IndexOf(events, trail[i]);
      assert events[a] != events[b];
      if a < b {
        assert events[a].eventId == events[b].eventId;
      } else {
        assert events[b].eventId == events[a].eventId;
      }
    } else if Distinct(events) {
      SortKeepsDistinct(events, EventLeq);
      assert false;
    } else {
      SameElementTwice(events, trail, k, i);
    }
  }

  /** An event that the sorted trail holds twice is held twice by the given events. */
  lemma SameElementTwice(events: seq<AuditEvent>, trail: seq<AuditEvent>, k: nat, i: nat)
    requires multiset(trail) == multiset(events) && k < i < |trail| && trail[k] == trail[i]
    ensures OccursTwice(events, trail[i].eventId)
  {
    var x := trail[i];
    assert trail == trail[..k] + [x] + trail[k + 1..i] + [x] + trail[i + 1..];
    assert multiset(trail)[x] >= 2;
    assert x in multiset(events);
    var a := IndexOf(events, x);
    assert events == events[..a] + [x] + events[a + 1..];
    assert x in multiset(events[..a] + events[a + 1..]);
    if x in events[..a] {
      var b := IndexOf(events[..a], x);
      assert events[b].eventId == events[a].eventId;
    } else {
      var b := IndexOf(events[a + 1..], x);
      assert events[a].eventId == events[a + 1 + b].eventId;
    }
  }

  lemma {:induction false} SortKeepsIds(events: seq<AuditEvent>)
    requires DistinctIds(SortBy(events, EventLeq))
    ensures DistinctIds(events) && SortedBy(SortBy(events, EventLeq), EventLeq)
  {
    var trail := SortBy(events, EventLeq);
    EventOrder();
    SortSorts(events, EventLeq);
    SortPermutes(events, EventLeq);
    DistinctIdsPermute(trail, events);
  }

  lemma DistinctIdsPermute(a: seq<AuditEvent>, b: seq<AuditEvent>)
    requires DistinctIds(a) && multiset(a) == multiset(b)
    ensures DistinctIds(b)
  {
    forall i, j | 0 <= i < j < |b| ensures b[i].eventId != b[j].eventId {
      if b[i].eventId == b[j].eventId {
        assert b[i] in multiset(a) && b[j] in multiset(a);
        var k := IndexOf(a, b[i]);
        var l := IndexOf(a, b[j]);
        if k == l { SameElementTwice(a, b, i, j); }
        assert false;
      }
    }
  }

  // ---- The index does not depend on the order of its input -------------------------

  /** Permutations of events with distinct ids are indexed alike: both succeed, with the same
      trail; the tables, being determined by the trail, are the same as well. */
  lemma {:induction false} PermutationsIndexAlike(a: seq<AuditEvent>, b: seq<AuditEvent>)
    requires multiset(a) == multiset(b)
    ensures DistinctIds(a) <==> DistinctIds(b)
    ensures DistinctIds(a) ==> SortBy(a, EventLeq) == SortBy(b, EventLeq)
  {
    if DistinctIds(a) {
      DistinctIdsPermute(a, b);
      EventOrder();
      SortForgetsOrder(a, b, EventLeq);
    } else if DistinctIds(b) {
      DistinctIdsPermute(b, a);
    }
  }

  /** So two valid indexes built from permutations of the same events are the same index. */
  lemma {:induction false} SameIndex(a: seq<AuditEvent>, b: seq<AuditEvent>, t: Tables, u: Tables)
    requires multiset(a) == multiset(b) && DistinctIds(a)
    requires Consistent(t, SortBy(a, EventLeq)) && Consistent(u, SortBy(b, EventLeq))
    ensures t == u
  {
    PermutationsIndexAlike(a, b);
  }

  // ---- The fingerprint of the trail ------------------------------------------------

  /** event.to_dict() as JSON. */
  function EventFields(e: AuditEvent): seq<Json> { BodyFields(e) + [Str(e.fingerprint)] }

  function EventJson(e: AuditEvent): Json { Obj(Zip(EVENT_KEYS, EventFields(e))) }

  function TrailJson(events: seq<AuditEvent>): seq<Json> {
    seq(|events|, i requires 0 <= i < |events| => EventJson(events[i]))
  }

  const TRAIL_KEYS := ["events", "schema_version"]

  function TrailText(events: seq<AuditEvent>): string {
    Dumps(Obj(Zip(TRAIL_KEYS, [Arr(TrailJson(events)), Str(AUDIT_SCHEMA_VERSION)])))
  }

  /** AuditTrailIndex.fingerprint, of a trail. */
  function TrailFingerprint(rt: Runtime, events: seq<AuditEvent>): string { rt.sha256(TrailText(events)) }

  /** What an event is in the text that the trail's fingerprint covers. */
  function EventMembers(e: AuditEvent, authority: string): seq<Member> {
    [Member("schema_version", Str("4.9.0")), Member("event_id", Str(e.eventId)),
     Member("event_type", Str(e.eventType)), Member("authority", Str(authority)),
     Member("logical_tick", Int(e.logicalTick)), Member("correlation_id", Str(e.correlationId)),
     Member("payload", e.payload), Member("fingerprint", Str(e.fingerprint))]
  }

  lemma EventJsonIs(e: AuditEvent, authority: string)
    requires IsAuthority(authority, e.authority) && e.schemaVersion == "4.9.0"
    ensures EventJson(e) == Obj(EventMembers(e, authority))
  {
    AuthorityIff(authority, e.authority);
    assert Zip(EVENT_KEYS, EventFields(e)) == EventMembers(e, authority);
  }

  /** The fingerprint of a trail is the hash of its events, in order, and the schema version. */
  lemma TrailFingerprintIs(rt: Runtime, events: seq<AuditEvent>, list: seq<Json>)
    requires |list| == |events|
    requires forall i :: 0 <= i < |events| ==>
               && events[i].schemaVersion == "4.9.0"
               && exists authority :: IsAuthority(authority, events[i].authority)
                                      && list[i] == Obj(EventMembers(events[i], authority))
    ensures TrailFingerprint(rt, events)
            == rt.sha256(Dumps(Obj([Member("events", Arr(list)), Member("schema_version", Str("4.9.0"))])))
  {
    forall i | 0 <= i < |events| ensures list[i] == EventJson(events[i]) {
      var authority :| IsAuthority(authority, events[i].authority)
                       && list[i] == Obj(EventMembers(events[i], authority));
      EventJsonIs(events[i], authority);
    }
    assert list == TrailJson(events);
    assert Zip(TRAIL_KEYS, [Arr(list), Str(AUDIT_SCHEMA_VERSION)])
           == [Member("events", Arr(list)), Member("schema_version", Str("4.9.0"))];
  }

  lemma {:induction false} EventWellFormed(rt: Runtime, e: AuditEvent)
    requires Normal(rt, e.payload)
    ensures WellFormed(EventJson(e))
  {
    KeysDistinct();
    NormalIsCanonical(rt, e.payload);
  }

  lemma SameEvents(rt: Runtime, e: AuditEvent, f: AuditEvent)
    requires Valid(rt, e) && Valid(rt, f) && Same(EventJson(e), EventJson(f))
    ensures e == f
  {
    KeysDistinct();
    NormalTextsDiffer(rt, e.payload, f.payload);
    SameItemsByKey(Zip(EVENT_KEYS, EventFields(e)), Zip(EVENT_KEYS, EventFields(f)));
    forall i | 0 <= i < 7 ensures Same(BodyFields(e)[i], BodyFields(f)[i]) {
      assert Same(Zip(EVENT_KEYS, EventFields(e))[i].value, Zip(EVENT_KEYS, EventFields(f))[i].value);
    }
    SameBodyFields(rt, e, f);
  }

  /** Unless their texts collide, trails with the same fingerprint are the same trail. */
  lemma FingerprintPinsTrail(rt: Runtime, a: seq<AuditEvent>, b: seq<AuditEvent>)
    requires forall e :: e in a || e in b ==> Valid(rt, e)
    requires NoCollision(rt.sha256, TrailText(a), TrailText(b))
    ensures TrailFingerprint(rt, a) == TrailFingerprint(rt, b) <==> a == b
  {
    if TrailFingerprint(rt, a) == TrailFingerprint(rt, b) {
      var x, y := [Arr(TrailJson(a)), Str(AUDIT_SCHEMA_VERSION)], [Arr(TrailJson(b)), Str(AUDIT_SCHEMA_VERSION)];
      assert TRAIL_KEYS[0][0] == 'e' && TRAIL_KEYS[1][0] == 's';
      forall i | 0 <= i < |a| ensures WellFormed(EventJson(a[i])) { assert a[i] in a; EventWellFormed(rt, a[i]); }
      forall i | 0 <= i < |b| ensures WellFormed(EventJson(b[i])) { assert b[i] in b; EventWellFormed(rt, b[i]); }
      assert WellFormed(x[0]) && WellFormed(y[0]);
      SameFields(TRAIL_KEYS, x, y);
      assert Same(x[0], y[0]);
      forall i | 0 <= i < |a| ensures a[i] == b[i] {
        assert a[i] in a && b[i] in b;
        assert Same(TrailJson(a)[i], TrailJson(b)[i]);
        SameEvents(rt, a[i], b[i]);
      }
    }
  }
}
