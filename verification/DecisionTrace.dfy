/** scripts/validate_agent_decision_trace.py: acceptance of decision traces, and what the
    chain root hash of an accepted trace pins down. */
module DecisionTrace {
  import opened Hashing
  import opened Results
  import opened Ordering
  import opened PyText
  import opened Canonicalization

  // ---- Traces ----------------------------------------------------------------------

  /** A trace entry as the JSON object it is; only the whole object is hashed. */
  datatype Entry = Entry(fields: seq<Member>)

  datatype Summary = Summary(
    governanceViolations: int,          // 0 when absent
    requiresReview: bool,
    totalEntries: Option<int>,
    entryTypeCounts: map<string, int>)  // empty when absent

  datatype Integrity = Integrity(
    chainRootHash: string,              // "" when absent
    immutabilityGuarantee: bool,
    entryCount: Option<int>)

  datatype Trace = Trace(
    schemaVersion: string,
    typeName: string,
    traceId: string,
    sessionRef: string,
    planRef: Option<string>,
    entries: seq<Entry>,
    summary: Summary,
    integrity: Integrity)

  /** sha256(...).hexdigest() of a text, and the three regular expressions. */
  datatype Checks = Checks(
    sha256: string -> string,
    traceIdFormat: string -> bool,
    refFormat: string -> bool,
    digestFormat: string -> bool)

  const SCHEMA_VERSION := "core.agent_decision_trace.v1"
  const ARTIFACT_TYPE := "agent_decision_trace"
  const VALID_ENTRY_TYPES := {"observation", "proposal", "outcome", "approval", "rejection"}

  datatype Error =
    | MissingSchemaVersion | UnknownSchemaVersion | InvalidType | MissingTraceId | InvalidTraceIdFormat
    | MissingSessionRef | InvalidSessionRefFormat | InvalidPlanRefFormat | EmptyTraceEntries
    | InvalidEntryType(index: nat) | MissingEntrySummary(index: nat) | EmptyEntrySummary(index: nat)
    | MissingEvidenceHash(index: nat) | InvalidEvidenceHash(index: nat)
    | DuplicateEntryId | NonContiguousEntryIds | NonMonotonicTimestamps(index: nat)
    | GovernanceViolationCountMismatch | RequiresReviewNotSet
    | MissingChainRootHash | InvalidChainRootHashFormat | ChainRootHashMismatch
    | ImmutabilityGuaranteeNotTrue | EntryCountMismatch | SummaryEntryCountMismatch | EntryTypeCountsMismatch

  // ---- Fields of an entry ----------------------------------------------------------

  /** entry.get(key) */
  function Get(fields: seq<Member>, key: string): Option<Json> {
    if fields == [] then None
    else if fields[0].key == key then Some(fields[0].value)
    else Get(fields[1..], key)
  }

  predicate IsText(v: Option<Json>) { v.None? || v.value.Null? || v.value.Str? }

  /** Other types of entry_type, timestamp_iso and entry_id, and of the metadata of a rejection, make the
      program raise TypeError or AttributeError, or compare floats with integers. */
  ghost predicate TypedEntry(e: Entry) {
    && WellFormed(Obj(e.fields))
    && IsText(Get(e.fields, "entry_type")) && IsText(Get(e.fields, "timestamp_iso"))
    && (var id := Get(e.fields, "entry_id"); id.None? || id.value.Null? || id.value.Int? || id.value.Bool?)
    && (TypeOf(e) == "rejection" ==> var m := Get(e.fields, "metadata"); m.None? || m.value.Obj?)
  }

  /** bool(v) */
  predicate Truthy(v: Json) {
    match v
    case Bool(b) => b
    case Int(i) => i != 0
    case Str(s) => s != ""
    case Null => false
    case Float(lexeme) => lexeme != "0.0" && lexeme != "-0.0"
    case Arr(items) => items != []
    case Obj(members) => members != []
  }

  predicate Holds(e: Entry, key: string) {
    var v := Get(e.fields, key);
    v.Some? && Truthy(v.value)
  }

  predicate NoSummary(e: Entry) {
    var v := Get(e.fields, "summary");
    v.None? || v.value.Null?
  }

  /** Of the values that JSON has, only a string can be blank under str(). */
  predicate BlankSummary(e: Entry) {
    var v := Get(e.fields, "summary");
    v.Some? && v.value.Str? && Strip(v.value.s) == ""
  }

  /** ... and only a string can be a digest under str(). */
  predicate EvidenceFits(c: Checks, e: Entry) {
    var v := Get(e.fields, "evidence_hash");
    v.Some? && v.value.Str? && c.digestFormat(v.value.s)
  }

  /** The text of a field, "" when it is absent. */
  function TextOf(e: Entry, key: string): string {
    var v := Get(e.fields, key);
    if v.Some? && v.value.Str? then v.value.s else ""
  }

  /** The declared id, or the position when none is declared; True is 1 and False is 0. */
  function IdOf(e: Entry, i: int): int {
    var v := Get(e.fields, "entry_id");
    if v.Some? && v.value.Int? then v.value.i
    else if v.Some? && v.value.Bool? then if v.value.b then 1 else 0
    else i
  }

  function Ids(entries: seq<Entry>): (r: seq<int>)
    ensures |r| == |entries| && forall i :: 0 <= i < |entries| ==> r[i] == IdOf(entries[i], i)
  {
    seq(|entries|, i requires 0 <= i < |entries| => IdOf(entries[i], i))
  }

  function TypeOf(e: Entry): string { TextOf(e, "entry_type") }

  /** entry.get("entry_type", ""), under which the entry is counted: a null type is not the empty one. */
  function TypeKey(e: Entry): Option<string> {
    var v := Get(e.fields, "entry_type");
    if v.Some? && v.value.Null? then None else Some(TypeOf(e))
  }

  function TimeOf(e: Entry): string { TextOf(e, "timestamp_iso") }

  /** A rejection whose metadata holds a true governance_violation. */
  predicate IsViolation(e: Entry) {
    TypeOf(e) == "rejection" &&
    var m := Get(e.fields, "metadata");
    m.Some? && m.value.Obj? && var g := Get(m.value.members, "governance_violation");
    g.Some? && Truthy(g.value)
  }

  predicate IsNotEvidence(m: Member) { m.key != "evidence_hash" }

  /** The entry without its evidence hash: what its link of the chain covers. */
  function Covered(e: Entry): Json { Obj(Filter(e.fields, IsNotEvidence)) }

  function LinkText(e: Entry): string { Dumps(Covered(e)) }

  /** The hex digest of one entry. */
  function LinkHash(sha256: string -> string): Entry -> string { (e: Entry) => sha256(LinkText(e)) }

  /** "".join(parts) */
  function Join(parts: seq<string>): string {
    if parts == [] then "" else Join(parts[..|parts| - 1]) + parts[|parts| - 1]
  }

  /** The hashes of the entries, joined. */
  function Joined(sha256: string -> string, entries: seq<Entry>): string {
    Join(MapSeq(entries, LinkHash(sha256)))
  }

  function ChainRoot(sha256: string -> string, entries: seq<Entry>): string {
    "sha256:" + sha256(Joined(sha256, entries))
  }

  // ---- What an acceptable trace is -------------------------------------------------

  predicate EntryOk(c: Checks, e: Entry) {
    && (TypeOf(e) == "" || TypeOf(e) in VALID_ENTRY_TYPES)
    && !NoSummary(e) && !BlankSummary(e)
    && (Holds(e, "source_ref") ==> Holds(e, "evidence_hash"))
    && (Holds(e, "evidence_hash") ==> EvidenceFits(c, e))
  }

  /** Any two entries with timestamps are in order, however far apart. */
  ghost predicate Chronological(entries: seq<Entry>) {
    forall i, j :: 0 <= i < j < |entries| && TimeOf(entries[i]) != "" && TimeOf(entries[j]) != ""
      ==> StrLeq(TimeOf(entries[i]), TimeOf(entries[j]))
  }

  function Violations(entries: seq<Entry>): nat {
    if entries == [] then 0
    else Violations(entries[..|entries| - 1]) + if IsViolation(entries[|entries| - 1]) then 1 else 0
  }

  function CountType(entries: seq<Entry>, t: Option<string>): nat {
    if entries == [] then 0
    else CountType(entries[..|entries| - 1], t) + if TypeKey(entries[|entries| - 1]) == t then 1 else 0
  }

  /** The table holds the types that occur, with the number of their entries. */
  ghost predicate CountsTypes(m: map<Option<string>, int>, entries: seq<Entry>) {
    forall t :: (t in m <==> CountType(entries, t) > 0) && (t in m ==> m[t] == CountType(entries, t))
  }

  /** A declared table has strings for keys, so it can tell the truth only about entries none of which
      has a null type. */
  ghost predicate DeclaresCounts(m: map<string, int>, entries: seq<Entry>) {
    && CountType(entries, None) == 0
    && forall t :: (t in m <==> CountType(entries, Some(t)) > 0) && (t in m ==> m[t] == CountType(entries, Some(t)))
  }

  ghost predicate HeaderOk(c: Checks, t: Trace) {
    && t.schemaVersion == SCHEMA_VERSION && t.typeName == ARTIFACT_TYPE
    && t.traceId != "" && c.traceIdFormat(t.traceId)
    && t.sessionRef != "" && c.refFormat(t.sessionRef)
    && (t.planRef.Some? ==> c.refFormat(t.planRef.value))
  }

  ghost predicate EntriesOk(c: Checks, entries: seq<Entry>) {
    && (forall i :: 0 <= i < |entries| ==> EntryOk(c, entries[i]))
    && (forall i :: 0 <= i < |entries| ==> IdOf(entries[i], i) == i)
    && Chronological(entries)
  }

  ghost predicate SummaryOk(c: Checks, t: Trace) {
    var n := |t.entries|;
    && t.summary.governanceViolations == Violations(t.entries)
    && (Violations(t.entries) > 0 ==> t.summary.requiresReview)
    && c.digestFormat(t.integrity.chainRootHash)
    && t.integrity.chainRootHash == ChainRoot(c.sha256, t.entries)
    && t.integrity.immutabilityGuarantee
    && (t.integrity.entryCount.Some? ==> t.integrity.entryCount.value == n)
    && (t.summary.totalEntries.Some? ==> t.summary.totalEntries.value == n)
    && (t.summary.entryTypeCounts != map[] ==> DeclaresCounts(t.summary.entryTypeCounts, t.entries))
  }

  ghost predicate TraceOk(c: Checks, t: Trace) {
    HeaderOk(c, t) && t.entries != [] && EntriesOk(c, t.entries) && SummaryOk(c, t)
  }

  // ---- What each error means -------------------------------------------------------

  predicate HeaderFault(c: Checks, t: Trace, e: Error) {
    match e
    case InvalidType => t.typeName != ARTIFACT_TYPE
    case MissingTraceId => t.traceId == ""
    case InvalidTraceIdFormat => t.traceId != "" && !c.traceIdFormat(t.traceId)
    case MissingSessionRef => t.sessionRef == ""
    case InvalidSessionRefFormat => t.sessionRef != "" && !c.refFormat(t.sessionRef)
    case InvalidPlanRefFormat => t.planRef.Some? && !c.refFormat(t.planRef.value)
    case _ => false
  }

  predicate EntryFault(c: Checks, entry: Entry, i: nat, e: Error) {
    match e
    case InvalidEntryType(k) => k == i && TypeOf(entry) != "" && TypeOf(entry) !in VALID_ENTRY_TYPES
    case MissingEntrySummary(k) => k == i && NoSummary(entry)
    case EmptyEntrySummary(k) => k == i && BlankSummary(entry)
    case MissingEvidenceHash(k) => k == i && Holds(entry, "source_ref") && !Holds(entry, "evidence_hash")
    case InvalidEvidenceHash(k) => k == i && Holds(entry, "evidence_hash") && !EvidenceFits(c, entry)
    case _ => false
  }

  ghost predicate IdFault(ids: seq<int>, e: Error) {
    match e
    case DuplicateEntryId => !Distinct(ids)
    case NonContiguousEntryIds => Distinct(ids) && exists i :: 0 <= i < |ids| && ids[i] != i
    case _ => false
  }

  /** Only the first entry whose timestamp is out of order is reported. */
  ghost predicate FirstDisorder(entries: seq<Entry>, i: nat) {
    i < |entries| && Chronological(entries[..i]) && !Chronological(entries[..i + 1])
  }

  ghost predicate ContentFault(c: Checks, entries: seq<Entry>, e: Error) {
    || (exists i :: 0 <= i < |entries| && EntryFault(c, entries[i], i, e))
    || IdFault(Ids(entries), e)
    || (e.NonMonotonicTimestamps? && FirstDisorder(entries, e.index))
  }

  predicate GovernanceFault(t: Trace, e: Error) {
    match e
    case GovernanceViolationCountMismatch => t.summary.governanceViolations != Violations(t.entries)
    case RequiresReviewNotSet => Violations(t.entries) > 0 && !t.summary.requiresReview
    case _ => false
  }

  predicate RootFault(c: Checks, t: Trace, e: Error) {
    var root := t.integrity.chainRootHash;
    match e
    case MissingChainRootHash => root == ""
    case InvalidChainRootHashFormat => root != "" && !c.digestFormat(root)
    case ChainRootHashMismatch => root != "" && c.digestFormat(root) && root != ChainRoot(c.sha256, t.entries)
    case _ => false
  }

  predicate CountFault(t: Trace, e: Error) {
    var n := |t.entries|;
    match e
    case ImmutabilityGuaranteeNotTrue => !t.integrity.immutabilityGuarantee
    case EntryCountMismatch => t.integrity.entryCount.Some? && t.integrity.entryCount.value != n
    case SummaryEntryCountMismatch => t.summary.totalEntries.Some? && t.summary.totalEntries.value != n
    case _ => false
  }

  ghost predicate TypeCountFault(t: Trace, e: Error) {
    && e == EntryTypeCountsMismatch
    && t.summary.entryTypeCounts != map[] && !DeclaresCounts(t.summary.entryTypeCounts, t.entries)
  }

  ghost predicate SummaryFault(c: Checks, t: Trace, e: Error) {
    GovernanceFault(t, e) || RootFault(c, t, e) || CountFault(t, e) || TypeCountFault(t, e)
  }

  /** Why a trace is rejected: an unknown schema hides every other error, a trace without entries those
      of its entries and of what is said about them. */
  ghost predicate TraceFault(c: Checks, t: Trace, e: Error) {
    if t.schemaVersion != SCHEMA_VERSION then
      e == if t.schemaVersion == "" then MissingSchemaVersion else UnknownSchemaVersion
    else
      || HeaderFault(c, t, e)
      || (if t.entries == [] then e == EmptyTraceEntries
          else ContentFault(c, t.entries, e) || SummaryFault(c, t, e))
  }

  // ---- validate_trace --------------------------------------------------------------

  method CheckHeader(c: Checks, t: Trace) returns (errors: seq<Error>)
    requires t.schemaVersion == SCHEMA_VERSION
    ensures errors == [] <==> HeaderOk(c, t)
    ensures forall e :: e in errors <==> HeaderFault(c, t, e)
  {
    errors := [];
    if t.typeName != ARTIFACT_TYPE { errors := errors + [InvalidType]; }
    if t.traceId == "" {
      errors := errors + [MissingTraceId];
    } else if !c.traceIdFormat(t.traceId) {
      errors := errors + [InvalidTraceIdFormat];
    }
    if t.sessionRef == "" {
      errors := errors + [MissingSessionRef];
    } else if !c.refFormat(t.sessionRef) {
      errors := errors + [InvalidSessionRefFormat];
    }
    if t.planRef.Some? && !c.refFormat(t.planRef.value) { errors := errors + [InvalidPlanRefFormat]; }
  }

  method CheckEntry(c: Checks, e: Entry, i: nat) returns (errors: seq<Error>)
    ensures errors == [] <==> EntryOk(c, e)
    ensures forall fault :: fault in errors <==> EntryFault(c, e, i, fault)
  {
    errors := [];
    var et := TypeOf(e);
    if et != "" && et !in VALID_ENTRY_TYPES { errors := errors + [InvalidEntryType(i)]; }
    if NoSummary(e) {
      errors := errors + [MissingEntrySummary(i)];
    } else if BlankSummary(e) {
      errors := errors + [EmptyEntrySummary(i)];
    }
    var evidence := Holds(e, "evidence_hash");
    if Holds(e, "source_ref") && !evidence { errors := errors + [MissingEvidenceHash(i)]; }
    if evidence && !EvidenceFits(c, e) { errors := errors + [InvalidEvidenceHash(i)]; }
  }

  /** The first loop: the ids, and the errors of the single entries. */
  method CheckEntries(c: Checks, entries: seq<Entry>) returns (ids: seq<int>, errors: seq<Error>)
    ensures ids == Ids(entries)
    ensures errors == [] <==> forall i :: 0 <= i < |entries| ==> EntryOk(c, entries[i])
    ensures forall e :: e in errors <==> exists i :: 0 <= i < |entries| && EntryFault(c, entries[i], i, e)
  {
    ids, errors := [], [];
    for i := 0 to |entries|
      invariant |ids| == i && forall k :: 0 <= k < i ==> ids[k] == IdOf(entries[k], k)
      invariant errors == [] <==> forall k :: 0 <= k < i ==> EntryOk(c, entries[k])
      invariant forall e :: e in errors <==> exists k :: 0 <= k < i && EntryFault(c, entries[k], k, e)
    {
      ids := ids + [IdOf(entries[i], i)];
      var more := CheckEntry(c, entries[i], i);
      errors := errors + more;
    }
  }

  method CheckIds(ids: seq<int>) returns (errors: seq<Error>)
    ensures errors == [] <==> forall i :: 0 <= i < |ids| ==> ids[i] == i
    ensures forall e :: e in errors <==> IdFault(ids, e)
  {
    errors := [];
    DistinctSize(ids);
    assert Elements(ids) == set x | x in ids;
    if ids != Range(|ids|) {
      errors := if |(set x | x in ids)| != |ids| then [DuplicateEntryId] else [NonContiguousEntryIds];
    }
  }

  /** A present timestamp and the position of its entry. */
  datatype Stamp = Stamp(index: nat, time: string)

  function Stamps(entries: seq<Entry>): seq<Stamp> {
    if entries == [] then []
    else
      var n := |entries| - 1;
      Stamps(entries[..n]) + if TimeOf(entries[n]) != "" then [Stamp(n, TimeOf(entries[n]))] else []
  }

  /** Only neighbouring timestamps are compared, and the first disorder ends the search. */
  method CheckTimestamps(entries: seq<Entry>) returns (errors: seq<Error>)
    ensures errors == [] <==> Chronological(entries)
    ensures forall e :: e in errors <==> e.NonMonotonicTimestamps? && FirstDisorder(entries, e.index)
  {
    errors := [];
    var stamps: seq<Stamp> := [];
    for i := 0 to |entries|
      invariant stamps == Stamps(entries[..i])
    {
      assert entries[..i + 1][..i] == entries[..i];
      var time := TimeOf(entries[i]);
      if time != "" { stamps := stamps + [Stamp(i, time)]; }
    }
    assert entries[..|entries|] == entries;
    StampsDecide(entries);
    if |stamps| > 1 {
      for j := 1 to |stamps|
        invariant errors == [] && forall k :: 1 <= k < j ==> StrLeq(stamps[k - 1].time, stamps[k].time)
      {
        StrOrder(stamps[j - 1].time, stamps[j].time);
        if !StrLeq(stamps[j - 1].time, stamps[j].time) {
          errors := [NonMonotonicTimestamps(stamps[j].index)];
          StopsAtDisorder(entries, j);
          break;
        }
      }
    }
    assert entries[..|entries|] == entries;
    forall i: nat | FirstDisorder(entries, i) ensures !Chronological(entries) {
    }
    forall i: nat, k: nat | FirstDisorder(entries, i) && FirstDisorder(entries, k) ensures i == k {
      OneDisorder(entries, i, k);
    }
  }

  lemma OneDisorder(entries: seq<Entry>, i: nat, k: nat)
    requires FirstDisorder(entries, i) && FirstDisorder(entries, k)
    ensures i == k
  {
  }

  lemma {:induction false} StampsOfPrefix(entries: seq<Entry>, j: nat)
    requires j < |Stamps(entries)|
    ensures var i := Stamps(entries)[j].index;
            && i < |entries| && Stamps(entries[..i]) == Stamps(entries)[..j]
            && Stamps(entries[..i + 1]) == Stamps(entries)[..j + 1]
  {
    var n := |entries| - 1;
    var before := Stamps(entries[..n]);
    if j < |before| {
      StampsOfPrefix(entries[..n], j);
      var i := before[j].index;
      assert entries[..n][..i] == entries[..i] && entries[..n][..i + 1] == entries[..i + 1];
    } else {
      assert entries[..n + 1] == entries;
    }
  }

  /** Where the loop stops is the first disorder among all the entries. */
  lemma {:induction false} StopsAtDisorder(entries: seq<Entry>, j: nat)
    requires 1 <= j < |Stamps(entries)|
    requires forall k :: 1 <= k < j ==> StrLeq(Stamps(entries)[k - 1].time, Stamps(entries)[k].time)
    requires !StrLeq(Stamps(entries)[j - 1].time, Stamps(entries)[j].time)
    ensures FirstDisorder(entries, Stamps(entries)[j].index)
  {
    var stamps := Stamps(entries);
    var i := stamps[j].index;
    StampsOfPrefix(entries, j);
    StampsDecide(entries[..i]);
    StampsDecide(entries[..i + 1]);
    assert stamps[..j + 1][j] == stamps[j] && stamps[..j + 1][j - 1] == stamps[j - 1];
  }

  ghost predicate NeighboursOrdered(stamps: seq<Stamp>) {
    forall k :: 1 <= k < |stamps| ==> StrLeq(stamps[k - 1].time, stamps[k].time)
  }

  lemma {:induction false} NeighboursOrderAll(stamps: seq<Stamp>, i: nat, j: nat)
    requires NeighboursOrdered(stamps) && i <= j < |stamps|
    ensures StrLeq(stamps[i].time, stamps[j].time)
  {
    if i == j {
      StrOrder(stamps[i].time, stamps[i].time);
    } else {
      NeighboursOrderAll(stamps, i, j - 1);
      StrTransitive(stamps[i].time, stamps[j - 1].time, stamps[j].time);
    }
  }

  lemma {:induction false} StampsAre(entries: seq<Entry>)
    ensures forall s :: s in Stamps(entries) <==>
              s.index < |entries| && s.time == TimeOf(entries[s.index]) && s.time != ""
    ensures forall k, l :: 0 <= k < l < |Stamps(entries)| ==> Stamps(entries)[k].index < Stamps(entries)[l].index
  {
    if entries != [] {
      var n := |entries| - 1;
      StampsAre(entries[..n]);
      var before := Stamps(entries[..n]);
      forall k | 0 <= k < |before| ensures before[k].index < n { assert before[k] in before; }
    }
  }

  lemma {:induction false} StampsDecide(entries: seq<Entry>)
    ensures NeighboursOrdered(Stamps(entries)) <==> Chronological(entries)
  {
    var stamps := Stamps(entries);
    StampsAre(entries);
    if NeighboursOrdered(stamps) {
      forall i, j | 0 <= i < j < |entries| && TimeOf(entries[i]) != "" && TimeOf(entries[j]) != ""
        ensures StrLeq(TimeOf(entries[i]), TimeOf(entries[j]))
      {
        var k := IndexOf(stamps, Stamp(i, TimeOf(entries[i])));
        var l := IndexOf(stamps, Stamp(j, TimeOf(entries[j])));
        assert stamps[k].index == i && stamps[l].index == j;
        NeighboursOrderAll(stamps, k, l);
      }
    }
    if Chronological(entries) {
      forall k | 1 <= k < |stamps| ensures StrLeq(stamps[k - 1].time, stamps[k].time) {
        assert stamps[k - 1] in stamps && stamps[k] in stamps;
        assert stamps[k - 1].index < stamps[k].index;
      }
    }
  }

  /** The checks of the entries: one by one, then their ids, then their timestamps. */
  method CheckContent(c: Checks, entries: seq<Entry>) returns (errors: seq<Error>)
    ensures errors == [] <==> EntriesOk(c, entries)
    ensures forall e :: e in errors <==> ContentFault(c, entries, e)
  {
    var ids, single := CheckEntries(c, entries);
    var order := CheckIds(ids);
    var times := CheckTimestamps(entries);
    assert order == [] <==> forall i :: 0 <= i < |entries| ==> IdOf(entries[i], i) == i;
    errors := single + order + times;
  }

  method ComputeChainRoot(c: Checks, entries: seq<Entry>) returns (root: string)
    ensures root == ChainRoot(c.sha256, entries)
  {
    var hashes: seq<string> := [];
    for i := 0 to |entries|
      invariant hashes == MapSeq(entries[..i], LinkHash(c.sha256))
    {
      assert entries[..i + 1] == entries[..i] + [entries[i]];
      MapAppends(entries[..i], [entries[i]], LinkHash(c.sha256));
      hashes := hashes + [c.sha256(LinkText(entries[i]))];
    }
    assert entries[..|entries|] == entries;
    root := "sha256:" + c.sha256(Join(hashes));
  }

  method CountEntryTypes(entries: seq<Entry>) returns (actual: map<Option<string>, int>)
    ensures CountsTypes(actual, entries)
  {
    actual := map[];
    for i := 0 to |entries|
      invariant CountsTypes(actual, entries[..i])
    {
      assert entries[..i + 1][..i] == entries[..i];
      var et := TypeKey(entries[i]);
      actual := actual[et := (if et in actual then actual[et] else 0) + 1];
    }
    assert entries[..|entries|] == entries;
  }

  method CheckGovernance(t: Trace) returns (errors: seq<Error>)
    ensures forall e :: e in errors <==> GovernanceFault(t, e)
  {
    errors := [];
    var violations := Violations(t.entries);
    if violations != t.summary.governanceViolations { errors := errors + [GovernanceViolationCountMismatch]; }
    if violations > 0 && !t.summary.requiresReview { errors := errors + [RequiresReviewNotSet]; }
  }

  method CheckRoot(c: Checks, t: Trace) returns (errors: seq<Error>)
    ensures forall e :: e in errors <==> RootFault(c, t, e)
  {
    errors := [];
    if t.integrity.chainRootHash == "" {
      errors := errors + [MissingChainRootHash];
    } else if !c.digestFormat(t.integrity.chainRootHash) {
      errors := errors + [InvalidChainRootHashFormat];
    } else {
      var computed := ComputeChainRoot(c, t.entries);
      if computed != t.integrity.chainRootHash { errors := errors + [ChainRootHashMismatch]; }
    }
  }

  method CheckCounts(t: Trace) returns (errors: seq<Error>)
    ensures forall e :: e in errors <==> CountFault(t, e)
  {
    var n := |t.entries|;
    errors := [];
    if !t.integrity.immutabilityGuarantee { errors := errors + [ImmutabilityGuaranteeNotTrue]; }
    if t.integrity.entryCount.Some? && t.integrity.entryCount.value != n { errors := errors + [EntryCountMismatch]; }
    if t.summary.totalEntries.Some? && t.summary.totalEntries.value != n {
      errors := errors + [SummaryEntryCountMismatch];
    }
  }

  method CheckTypeCounts(t: Trace) returns (errors: seq<Error>)
    ensures forall e :: e in errors <==> TypeCountFault(t, e)
  {
    errors := [];
    var actual := CountEntryTypes(t.entries);
    if t.summary.entryTypeCounts != map[] && Keyed(t.summary.entryTypeCounts) != actual {
      errors := [EntryTypeCountsMismatch];
    }
  }

  /** The checks of what the trace says about its entries. */
  method CheckSummary(c: Checks, t: Trace) returns (errors: seq<Error>)
    requires !c.digestFormat("")
    ensures errors == [] <==> SummaryOk(c, t)
    ensures forall e :: e in errors <==> SummaryFault(c, t, e)
  {
    var governance := CheckGovernance(t);
    var root := CheckRoot(c, t);
    var counts := CheckCounts(t);
    var types := CheckTypeCounts(t);
    errors := governance + root + counts + types;
    FaultlessSummary(c, t);
    if errors != [] { assert errors[0] in errors; }
  }

  /** What is said about the entries is true exactly when no error says otherwise. */
  lemma FaultlessSummary(c: Checks, t: Trace)
    requires !c.digestFormat("")
    ensures SummaryOk(c, t) <==> forall e :: !SummaryFault(c, t, e)
  {
    if forall e :: !SummaryFault(c, t, e) {
      forall e ensures !GovernanceFault(t, e) && !RootFault(c, t, e) && !CountFault(t, e) && !TypeCountFault(t, e) {
        assert !SummaryFault(c, t, e);
      }
      FaultlessParts(c, t);
      assert !TypeCountFault(t, EntryTypeCountsMismatch);
    }
  }

  lemma FaultlessParts(c: Checks, t: Trace)
    requires forall e :: !GovernanceFault(t, e) && !RootFault(c, t, e) && !CountFault(t, e)
    ensures t.summary.governanceViolations == Violations(t.entries)
    ensures Violations(t.entries) > 0 ==> t.summary.requiresReview
    ensures c.digestFormat(t.integrity.chainRootHash)
    ensures t.integrity.chainRootHash == ChainRoot(c.sha256, t.entries)
    ensures t.integrity.immutabilityGuarantee
    ensures t.integrity.entryCount.Some? ==> t.integrity.entryCount.value == |t.entries|
    ensures t.summary.totalEntries.Some? ==> t.summary.totalEntries.value == |t.entries|
  {
    assert !GovernanceFault(t, GovernanceViolationCountMismatch) && !GovernanceFault(t, RequiresReviewNotSet);
    assert !RootFault(c, t, MissingChainRootHash) && !RootFault(c, t, InvalidChainRootHashFormat);
    assert !RootFault(c, t, ChainRootHashMismatch);
    assert !CountFault(t, ImmutabilityGuaranteeNotTrue) && !CountFault(t, EntryCountMismatch);
    assert !CountFault(t, SummaryEntryCountMismatch);
  }

  /** The declared table, as it compares with the actual one. */
  function Keyed(m: map<string, int>): map<Option<string>, int> {
    map t | t in m :: Some(t) := m[t]
  }

  /** validate_trace accepts exactly the acceptable traces. */
  method ValidateTrace(c: Checks, t: Trace) returns (errors: seq<Error>)
    requires forall i :: 0 <= i < |t.entries| ==> TypedEntry(t.entries[i])
    requires !c.digestFormat("")
    ensures errors == [] <==> TraceOk(c, t)
    ensures errors == [] <==> TraceSays(c, t)
    ensures forall e :: e in errors <==> TraceFault(c, t, e)
  {
    AcceptableIff(c, t);
    if t.schemaVersion == "" { return [MissingSchemaVersion]; }
    if t.schemaVersion != SCHEMA_VERSION { return [UnknownSchemaVersion]; }
    errors := CheckHeader(c, t);
    if t.entries == [] {
      errors := errors + [EmptyTraceEntries];
      return;
    }
    var content := CheckContent(c, t.entries);
    var late := CheckSummary(c, t);
    errors := errors + content + late;
  }

  // ---- An accepted trace, read off its JSON ----------------------------------------

  /** What if treats as false. */
  predicate False(v: Json) {
    || v == Null || v == Bool(false) || v == Int(0) || v == Float("0.0") || v == Float("-0.0") || v == Str("")
    || v == Arr([]) || v == Obj([])
  }

  ghost predicate Filled(fields: seq<Member>, key: string) {
    exists v :: Member(key, v) in fields && !False(v)
  }

  /** A rejection whose metadata has a governance_violation that is not false. */
  ghost predicate Violates(fields: seq<Member>) {
    && Member("entry_type", Str("rejection")) in fields
    && exists metadata, v :: Member("metadata", Obj(metadata)) in fields
                             && Member("governance_violation", v) in metadata && !False(v)
  }

  /** An absent type counts as the empty one. */
  ghost predicate HasType(fields: seq<Member>, s: string) {
    Member("entry_type", Str(s)) in fields || (s == "" && forall v :: Member("entry_type", v) !in fields)
  }

  ghost predicate EntrySays(c: Checks, fields: seq<Member>, i: nat) {
    && (forall s :: Member("entry_type", Str(s)) in fields ==>
          s in ["", "observation", "proposal", "outcome", "approval", "rejection"])
    && (exists v :: Member("summary", v) in fields && v != Null && (v.Str? ==> Strip(v.s) != ""))
    && (Filled(fields, "source_ref") ==> Filled(fields, "evidence_hash"))
    && (forall v :: Member("evidence_hash", v) in fields && !False(v) ==> v.Str? && c.digestFormat(v.s))
    && forall v :: Member("entry_id", v) in fields ==>
         v in [Null, Int(i)] || (i == 0 && v == Bool(false)) || (i == 1 && v == Bool(true))
  }

  /** Any two timestamps that are not empty are in order. */
  ghost predicate InTime(entries: seq<Entry>) {
    forall i, j, a, b :: 0 <= i < j < |entries| && a != "" && b != ""
      && Member("timestamp_iso", Str(a)) in entries[i].fields && Member("timestamp_iso", Str(b)) in entries[j].fields
      ==> StrLeq(a, b)
  }

  ghost predicate TypesDeclared(entries: seq<Entry>, m: map<string, int>) {
    && (forall i :: 0 <= i < |entries| ==> Member("entry_type", Null) !in entries[i].fields)
    && forall s :: (s in m <==> exists i :: 0 <= i < |entries| && HasType(entries[i].fields, s))
                   && (s in m ==> m[s] == |set i | 0 <= i < |entries| && HasType(entries[i].fields, s)|)
  }

  /** What the trace says about its entries is true. */
  ghost predicate SummarySays(c: Checks, t: Trace) {
    var n := |t.entries|;
    var violations := set i | 0 <= i < n && Violates(t.entries[i].fields);
    && t.summary.governanceViolations == |violations| && (violations != {} ==> t.summary.requiresReview)
    && c.digestFormat(t.integrity.chainRootHash) && t.integrity.chainRootHash == ChainRoot(c.sha256, t.entries)
    && t.integrity.immutabilityGuarantee && t.integrity.entryCount in [None, Some(n)]
    && t.summary.totalEntries in [None, Some(n)]
    && (t.summary.entryTypeCounts == map[] || TypesDeclared(t.entries, t.summary.entryTypeCounts))
  }

  /** A trace that deserves acceptance, without reference to how it is checked. */
  ghost predicate TraceSays(c: Checks, t: Trace) {
    && t.schemaVersion == "core.agent_decision_trace.v1" && t.typeName == "agent_decision_trace"
    && t.traceId != "" && c.traceIdFormat(t.traceId) && t.sessionRef != "" && c.refFormat(t.sessionRef)
    && (t.planRef == None || c.refFormat(t.planRef.value))
    && t.entries != [] && (forall i :: 0 <= i < |t.entries| ==> EntrySays(c, t.entries[i].fields, i))
    && InTime(t.entries) && SummarySays(c, t)
  }

  lemma KeyOnce(fields: seq<Member>, m: Member)
    requires fields != [] && Distinct(Keys(fields)) && m in fields[1..]
    ensures m.key != fields[0].key
  {
    var i := IndexOf(fields[1..], m);
    assert Keys(fields)[i + 1] == m.key && Keys(fields)[0] == fields[0].key;
  }

  lemma {:induction false} GetIff(fields: seq<Member>, key: string)
    requires Distinct(Keys(fields))
    ensures forall v :: Get(fields, key) == Some(v) <==> Member(key, v) in fields
  {
    if fields != [] {
      var rest := fields[1..];
      assert Keys(rest) == Keys(fields)[1..];
      GetIff(rest, key);
      forall v ensures Get(fields, key) == Some(v) <==> Member(key, v) in fields {
        assert Member(key, v) in fields <==> Member(key, v) == fields[0] || Member(key, v) in rest;
        if Member(key, v) in rest { KeyOnce(fields, Member(key, v)); }
      }
    }
  }

  lemma TruthyIff(v: Json)
    ensures Truthy(v) <==> !False(v)
  {
  }

  lemma HoldsIff(e: Entry, key: string)
    requires Distinct(Keys(e.fields))
    ensures Holds(e, key) <==> Filled(e.fields, key)
  {
    GetIff(e.fields, key);
    var v := Get(e.fields, key);
    if v.Some? {
      TruthyIff(v.value);
      assert Member(key, v.value) in e.fields;
    }
    if Filled(e.fields, key) {
      var x :| Member(key, x) in e.fields && !False(x);
      assert v == Some(x);
    }
  }

  lemma ViolationIff(e: Entry)
    requires WellFormed(Obj(e.fields))
    ensures IsViolation(e) <==> Violates(e.fields)
  {
    GetIff(e.fields, "entry_type");
    GetIff(e.fields, "metadata");
    assert TypeOf(e) == "rejection" <==> Member("entry_type", Str("rejection")) in e.fields;
    var m := Get(e.fields, "metadata");
    if m.Some? && m.value.Obj? {
      var metadata := m.value.members;
      assert Member("metadata", Obj(metadata)) in e.fields;
      var i := IndexOf(e.fields, Member("metadata", Obj(metadata)));
      assert WellFormed(e.fields[i].value);
      HoldsIff(Entry(metadata), "governance_violation");
    }
    if Violates(e.fields) {
      var metadata, v :| Member("metadata", Obj(metadata)) in e.fields
                         && Member("governance_violation", v) in metadata && !False(v);
      assert m == Some(Obj(metadata));
      assert Filled(metadata, "governance_violation");
    }
  }

  /** The positions of the true flags. */
  ghost function Marked(flags: seq<bool>): set<int> {
    set i | 0 <= i < |flags| && flags[i]
  }

  lemma MarkedNext(flags: seq<bool>, flag: bool)
    ensures |Marked(flags + [flag])| == |Marked(flags)| + if flag then 1 else 0
  {
    assert Marked(flags + [flag]) == Marked(flags) + if flag then {|flags|} else {};
  }

  lemma {:induction false} ViolationsMarked(entries: seq<Entry>, flags: seq<bool>)
    requires |flags| == |entries| && forall i :: 0 <= i < |flags| ==> (flags[i] <==> IsViolation(entries[i]))
    ensures Violations(entries) == |Marked(flags)|
  {
    if entries == [] {
      assert Marked(flags) == {};
    } else {
      var n := |entries| - 1;
      ViolationsMarked(entries[..n], flags[..n]);
      MarkedNext(flags[..n], flags[n]);
      assert flags == flags[..n] + [flags[n]];
    }
  }

  /** The count of the violations is the number of entries that are one. */
  lemma {:induction false} ViolationsAre(entries: seq<Entry>)
    requires forall i :: 0 <= i < |entries| ==> WellFormed(Obj(entries[i].fields))
    ensures Violations(entries) == |set i | 0 <= i < |entries| && Violates(entries[i].fields)|
  {
    var flags := seq(|entries|, i requires 0 <= i < |entries| => IsViolation(entries[i]));
    forall i | 0 <= i < |entries| ensures flags[i] <==> Violates(entries[i].fields) { ViolationIff(entries[i]); }
    ViolationsMarked(entries, flags);
    assert Marked(flags) == set i | 0 <= i < |entries| && Violates(entries[i].fields);
  }

  lemma GovernanceFaults(c: Checks, t: Trace, e: Error)
    requires t.schemaVersion == SCHEMA_VERSION && t.entries != []
    requires e == GovernanceViolationCountMismatch || e == RequiresReviewNotSet
    ensures TraceFault(c, t, e) <==> GovernanceFault(t, e)
  {
  }

  /** A trace is rejected for its number of violations exactly when it declares another number than its
      rejections show, and for a missing review exactly when they show any. */
  lemma GovernanceFaultIff(c: Checks, t: Trace)
    requires t.schemaVersion == "core.agent_decision_trace.v1" && t.entries != []
    requires forall i :: 0 <= i < |t.entries| ==> WellFormed(Obj(t.entries[i].fields))
    ensures var violations := set i | 0 <= i < |t.entries| && Violates(t.entries[i].fields);
            && (TraceFault(c, t, GovernanceViolationCountMismatch) <==> t.summary.governanceViolations != |violations|)
            && (TraceFault(c, t, RequiresReviewNotSet) <==> violations != {} && !t.summary.requiresReview)
  {
    ViolationsAre(t.entries);
    GovernanceFaults(c, t, GovernanceViolationCountMismatch);
    GovernanceFaults(c, t, RequiresReviewNotSet);
  }

  lemma TypeIff(e: Entry)
    requires TypedEntry(e)
    ensures forall s: string :: TypeKey(e) == Some(s) <==> HasType(e.fields, s)
    ensures TypeKey(e) == None <==> Member("entry_type", Null) in e.fields
    ensures TypeOf(e) == "" || Member("entry_type", Str(TypeOf(e))) in e.fields
    ensures forall s :: Member("entry_type", Str(s)) in e.fields ==> TypeOf(e) == s
  {
    GetIff(e.fields, "entry_type");
    var v := Get(e.fields, "entry_type");
    if v.Some? { assert Member("entry_type", v.value) in e.fields; }
  }

  lemma {:induction false} TypesMarked(entries: seq<Entry>, t: Option<string>, flags: seq<bool>)
    requires |flags| == |entries| && forall i :: 0 <= i < |flags| ==> (flags[i] <==> TypeKey(entries[i]) == t)
    ensures CountType(entries, t) == |Marked(flags)|
  {
    if entries == [] {
      assert Marked(flags) == {};
    } else {
      var n := |entries| - 1;
      TypesMarked(entries[..n], t, flags[..n]);
      MarkedNext(flags[..n], flags[n]);
      assert flags == flags[..n] + [flags[n]];
    }
  }

  /** The count of a type is the number of entries of it. */
  lemma {:induction false} TypesFlagged(entries: seq<Entry>, t: Option<string>, flags: seq<bool>)
    requires |flags| == |entries| && forall i :: 0 <= i < |flags| ==> (flags[i] <==> TypeKey(entries[i]) == t)
    ensures CountType(entries, t) == |set i | 0 <= i < |flags| && flags[i]|
    ensures CountType(entries, t) > 0 <==> exists i :: 0 <= i < |flags| && flags[i]
  {
    TypesMarked(entries, t, flags);
    assert Marked(flags) == set i | 0 <= i < |flags| && flags[i];
    if Marked(flags) != {} {
      var i :| i in Marked(flags);
      assert flags[i];
    }
    if i :| 0 <= i < |flags| && flags[i] { assert i in Marked(flags); }
  }

  function TypeFlags(entries: seq<Entry>, t: Option<string>): seq<bool> {
    seq(|entries|, i requires 0 <= i < |entries| => TypeKey(entries[i]) == t)
  }

  /** The entry counts under the type that its fields show. */
  ghost predicate TypeAgrees(e: Entry) {
    && (forall s: string :: TypeKey(e) == Some(s) <==> HasType(e.fields, s))
    && (TypeKey(e) == None <==> Member("entry_type", Null) in e.fields)
  }

  lemma {:induction false} TypesAre(entries: seq<Entry>, s: string)
    requires forall i :: 0 <= i < |entries| ==> TypeAgrees(entries[i])
    ensures CountType(entries, Some(s)) == |set i | 0 <= i < |entries| && HasType(entries[i].fields, s)|
    ensures CountType(entries, Some(s)) > 0 <==> exists i :: 0 <= i < |entries| && HasType(entries[i].fields, s)
  {
    var flags := TypeFlags(entries, Some(s));
    TypesFlagged(entries, Some(s), flags);
    forall i | 0 <= i < |entries| ensures flags[i] <==> HasType(entries[i].fields, s) {
      assert TypeAgrees(entries[i]);
    }
    assert (set i | 0 <= i < |flags| && flags[i]) == set i | 0 <= i < |entries| && HasType(entries[i].fields, s);
  }

  lemma {:induction false} NullTypesAre(entries: seq<Entry>)
    requires forall i :: 0 <= i < |entries| ==> TypeAgrees(entries[i])
    ensures CountType(entries, None) == 0
            <==> forall i :: 0 <= i < |entries| ==> Member("entry_type", Null) !in entries[i].fields
  {
    var flags := TypeFlags(entries, None);
    TypesFlagged(entries, None, flags);
    forall i | 0 <= i < |entries| ensures flags[i] <==> Member("entry_type", Null) in entries[i].fields {
      assert TypeAgrees(entries[i]);
    }
  }

  /** A declared table is right exactly when it counts the entries by the types they show. */
  lemma DeclaredIff(entries: seq<Entry>, m: map<string, int>)
    requires forall i :: 0 <= i < |entries| ==> TypeAgrees(entries[i])
    ensures DeclaresCounts(m, entries) <==> TypesDeclared(entries, m)
  {
    NullTypesAre(entries);
    forall s: string
      ensures CountType(entries, Some(s)) > 0 <==> exists i :: 0 <= i < |entries| && HasType(entries[i].fields, s)
      ensures CountType(entries, Some(s)) == |set i | 0 <= i < |entries| && HasType(entries[i].fields, s)|
    {
      TypesAre(entries, s);
    }
  }

  lemma EntryOkIff(c: Checks, e: Entry, i: nat)
    requires TypedEntry(e)
    ensures EntryOk(c, e) && IdOf(e, i) == i <==> EntrySays(c, e.fields, i)
  {
    TypeIff(e);
    SummaryIff(e);
    EvidenceIff(c, e);
    IdIff(e, i);
    HoldsIff(e, "source_ref");
    HoldsIff(e, "evidence_hash");
    assert VALID_ENTRY_TYPES == {"observation", "proposal", "outcome", "approval", "rejection"};
  }

  /** Which errors the fields of an entry cause. */
  lemma EntryFaultIff(c: Checks, e: Entry, i: nat)
    requires TypedEntry(e)
    ensures EntryFault(c, e, i, InvalidEntryType(i))
            <==> exists s :: Member("entry_type", Str(s)) in e.fields
                             && s !in ["", "observation", "proposal", "outcome", "approval", "rejection"]
    ensures EntryFault(c, e, i, MissingEntrySummary(i)) <==> forall v :: Member("summary", v) in e.fields ==> v == Null
    ensures EntryFault(c, e, i, EmptyEntrySummary(i))
            <==> exists s :: Member("summary", Str(s)) in e.fields && Strip(s) == ""
    ensures EntryFault(c, e, i, MissingEvidenceHash(i))
            <==> Filled(e.fields, "source_ref") && !Filled(e.fields, "evidence_hash")
    ensures EntryFault(c, e, i, InvalidEvidenceHash(i))
            <==> exists v :: Member("evidence_hash", v) in e.fields && !False(v) && !(v.Str? && c.digestFormat(v.s))
  {
    TypeFaultIff(c, e, i);
    SummaryFaultIff(c, e, i);
    EvidenceFaultIff(c, e, i);
  }

  lemma EvidenceFaultIff(c: Checks, e: Entry, i: nat)
    requires Distinct(Keys(e.fields))
    ensures EntryFault(c, e, i, MissingEvidenceHash(i))
            <==> Filled(e.fields, "source_ref") && !Filled(e.fields, "evidence_hash")
    ensures EntryFault(c, e, i, InvalidEvidenceHash(i))
            <==> exists v :: Member("evidence_hash", v) in e.fields && !False(v) && !(v.Str? && c.digestFormat(v.s))
  {
    EvidenceIff(c, e);
    HoldsIff(e, "source_ref");
    HoldsIff(e, "evidence_hash");
  }

  lemma TypeFaultIff(c: Checks, e: Entry, i: nat)
    requires TypedEntry(e)
    ensures EntryFault(c, e, i, InvalidEntryType(i))
            <==> exists s :: Member("entry_type", Str(s)) in e.fields
                             && s !in ["", "observation", "proposal", "outcome", "approval", "rejection"]
  {
    TypeIff(e);
    assert VALID_ENTRY_TYPES == {"observation", "proposal", "outcome", "approval", "rejection"};
  }

  lemma SummaryFaultIff(c: Checks, e: Entry, i: nat)
    requires Distinct(Keys(e.fields))
    ensures EntryFault(c, e, i, MissingEntrySummary(i)) <==> forall v :: Member("summary", v) in e.fields ==> v == Null
    ensures EntryFault(c, e, i, EmptyEntrySummary(i))
            <==> exists s :: Member("summary", Str(s)) in e.fields && Strip(s) == ""
  {
    GetIff(e.fields, "summary");
    var v := Get(e.fields, "summary");
    if v.Some? { assert Member("summary", v.value) in e.fields; }
  }

  lemma SummaryIff(e: Entry)
    requires Distinct(Keys(e.fields))
    ensures !NoSummary(e) && !BlankSummary(e)
            <==> exists v :: Member("summary", v) in e.fields && v != Null && (v.Str? ==> Strip(v.s) != "")
  {
    GetIff(e.fields, "summary");
    var v := Get(e.fields, "summary");
    if v.Some? { assert Member("summary", v.value) in e.fields; }
  }

  lemma EvidenceIff(c: Checks, e: Entry)
    requires Distinct(Keys(e.fields))
    ensures (Holds(e, "evidence_hash") ==> EvidenceFits(c, e))
            <==> forall v :: Member("evidence_hash", v) in e.fields && !False(v) ==> v.Str? && c.digestFormat(v.s)
  {
    GetIff(e.fields, "evidence_hash");
    var v := Get(e.fields, "evidence_hash");
    if v.Some? {
      assert Member("evidence_hash", v.value) in e.fields;
      TruthyIff(v.value);
    }
  }

  lemma IdIff(e: Entry, i: nat)
    requires TypedEntry(e)
    ensures IdOf(e, i) == i
            <==> forall v :: Member("entry_id", v) in e.fields ==>
                   v in [Null, Int(i)] || (i == 0 && v == Bool(false)) || (i == 1 && v == Bool(true))
  {
    GetIff(e.fields, "entry_id");
    var v := Get(e.fields, "entry_id");
    if v.Some? { assert Member("entry_id", v.value) in e.fields; }
  }

  lemma TimeIff(e: Entry, a: string)
    requires Distinct(Keys(e.fields)) && a != ""
    ensures TimeOf(e) == a <==> Member("timestamp_iso", Str(a)) in e.fields
  {
    GetIff(e.fields, "timestamp_iso");
  }

  lemma InTimeIff(entries: seq<Entry>)
    requires forall i :: 0 <= i < |entries| ==> Distinct(Keys(entries[i].fields))
    ensures Chronological(entries) <==> InTime(entries)
  {
    forall i, a | 0 <= i < |entries| && a != ""
      ensures TimeOf(entries[i]) == a <==> Member("timestamp_iso", Str(a)) in entries[i].fields
    {
      TimeIff(entries[i], a);
    }
  }

  lemma EntriesIff(c: Checks, entries: seq<Entry>)
    requires forall i :: 0 <= i < |entries| ==> TypedEntry(entries[i])
    ensures EntriesOk(c, entries)
            <==> (forall i :: 0 <= i < |entries| ==> EntrySays(c, entries[i].fields, i)) && InTime(entries)
  {
    forall i | 0 <= i < |entries|
      ensures Distinct(Keys(entries[i].fields))
      ensures EntryOk(c, entries[i]) && IdOf(entries[i], i) == i <==> EntrySays(c, entries[i].fields, i)
    {
      EntryOkIff(c, entries[i], i);
    }
    InTimeIff(entries);
  }

  lemma SummaryOkIff(c: Checks, t: Trace)
    requires Violations(t.entries) == |set i | 0 <= i < |t.entries| && Violates(t.entries[i].fields)|
    requires var counts := t.summary.entryTypeCounts;
             DeclaresCounts(counts, t.entries) <==> TypesDeclared(t.entries, counts)
    ensures SummaryOk(c, t) <==> SummarySays(c, t)
  {
    var n := |t.entries|;
    var violations := set i | 0 <= i < n && Violates(t.entries[i].fields);
    assert violations == {} <==> Violations(t.entries) == 0;
    assert t.integrity.entryCount in [None, Some(n)]
           <==> (t.integrity.entryCount.Some? ==> t.integrity.entryCount.value == n);
    assert t.summary.totalEntries in [None, Some(n)]
           <==> (t.summary.totalEntries.Some? ==> t.summary.totalEntries.value == n);
  }

  /** Exactly the traces that say so are acceptable. */
  lemma AcceptableIff(c: Checks, t: Trace)
    requires forall i :: 0 <= i < |t.entries| ==> TypedEntry(t.entries[i])
    ensures TraceOk(c, t) <==> TraceSays(c, t)
  {
    forall i | 0 <= i < |t.entries| ensures TypeAgrees(t.entries[i]) && WellFormed(Obj(t.entries[i].fields)) {
      TypeIff(t.entries[i]);
    }
    EntriesIff(c, t.entries);
    ViolationsAre(t.entries);
    DeclaredIff(t.entries, t.summary.entryTypeCounts);
    SummaryOkIff(c, t);
  }

  // ---- What the chain root pins down -----------------------------------------------

  lemma {:induction false} JoinLength(parts: seq<string>)
    requires forall i :: 0 <= i < |parts| ==> |parts[i]| == 64
    ensures |Join(parts)| == 64 * |parts|
  {
    if parts != [] { JoinLength(parts[..|parts| - 1]); }
  }

  /** Joined digests fall apart in one way only. */
  lemma {:induction false} JoinSplits(a: seq<string>, b: seq<string>)
    requires forall i :: 0 <= i < |a| ==> |a[i]| == 64
    requires forall i :: 0 <= i < |b| ==> |b[i]| == 64
    requires Join(a) == Join(b)
    ensures a == b
  {
    JoinLength(a);
    JoinLength(b);
    if a != [] {
      var n := |a| - 1;
      var x, y := Join(a[..n]), Join(b[..n]);
      JoinLength(a[..n]);
      JoinLength(b[..n]);
      assert x + a[n] == y + b[n];
      assert x == (x + a[n])[..|x|] && y == (y + b[n])[..|x|];
      assert a[n] == (x + a[n])[|x|..] && b[n] == (y + b[n])[|x|..];
      JoinSplits(a[..n], b[..n]);
      assert a == a[..n] + [a[n]] && b == b[..n] + [b[n]];
    }
  }

  lemma {:induction false} FilterWellFormed(fields: seq<Member>)
    requires WellFormed(Obj(fields))
    ensures WellFormed(Obj(Filter(fields, IsNotEvidence)))
    ensures forall m :: m in Filter(fields, IsNotEvidence) <==> m in fields && m.key != "evidence_hash"
  {
    if fields != [] {
      var n := |fields| - 1;
      var prior := fields[..n];
      assert Keys(prior) == Keys(fields)[..n];
      FilterWellFormed(prior);
      assert fields == prior + [fields[n]];
      var t := Filter(prior, IsNotEvidence);
      forall i | 0 <= i < |t| ensures t[i].key != fields[n].key {
        assert t[i] in t;
        var k := IndexOf(prior, t[i]);
        assert Keys(fields)[k] != Keys(fields)[n];
      }
      var r := Filter(fields, IsNotEvidence);
      forall i, j | 0 <= i < j < |r| ensures Keys(r)[i] != Keys(r)[j] {
        if j < |t| { assert Keys(t)[i] != Keys(t)[j]; }
      }
    }
  }

  lemma RootPinsLinks(sha256: string -> string, a: seq<Entry>, b: seq<Entry>)
    requires ChainRoot(sha256, a) == ChainRoot(sha256, b)
    requires forall x :: |sha256(x)| == 64
    requires NoCollision(sha256, Joined(sha256, a), Joined(sha256, b))
    ensures |a| == |b| && forall i :: 0 <= i < |a| ==> sha256(LinkText(a[i])) == sha256(LinkText(b[i]))
  {
    assert ChainRoot(sha256, a)[|"sha256:"|..] == sha256(Joined(sha256, a));
    assert ChainRoot(sha256, b)[|"sha256:"|..] == sha256(Joined(sha256, b));
    var x, y := MapSeq(a, LinkHash(sha256)), MapSeq(b, LinkHash(sha256));
    forall i | 0 <= i < |x| ensures |x[i]| == 64 { assert x[i] == sha256(LinkText(a[i])); }
    forall i | 0 <= i < |y| ensures |y[i]| == 64 { assert y[i] == sha256(LinkText(b[i])); }
    JoinSplits(x, y);
    assert |x| == |a| && |y| == |b|;
    forall i | 0 <= i < |a| ensures sha256(LinkText(a[i])) == sha256(LinkText(b[i])) { assert x[i] == y[i]; }
  }

  lemma SameLinkSameEntry(e: Entry, f: Entry)
    requires WellFormed(Obj(e.fields)) && WellFormed(Obj(f.fields))
    ensures LinkText(e) == LinkText(f) <==> Same(Covered(e), Covered(f))
  {
    FilterWellFormed(e.fields);
    FilterWellFormed(f.fields);
    DumpsInjective(Covered(e), Covered(f));
  }

  /** Two accepted traces with the same chain root have the same number of entries, equal one
      by one apart from their evidence hashes, unless the hash takes two of the texts that
      were hashed here for one another. */
  lemma ChainRootPinsEntries(c: Checks, s: Trace, t: Trace)
    requires TraceOk(c, s) && TraceOk(c, t)
    requires forall i :: 0 <= i < |s.entries| ==> WellFormed(Obj(s.entries[i].fields))
    requires forall i :: 0 <= i < |t.entries| ==> WellFormed(Obj(t.entries[i].fields))
    requires s.integrity.chainRootHash == t.integrity.chainRootHash
    requires forall x :: |c.sha256(x)| == 64
    requires NoCollision(c.sha256, Joined(c.sha256, s.entries), Joined(c.sha256, t.entries))
    requires forall i :: 0 <= i < |s.entries| && i < |t.entries| ==>
               NoCollision(c.sha256, LinkText(s.entries[i]), LinkText(t.entries[i]))
    ensures |s.entries| == |t.entries|
    ensures forall i :: 0 <= i < |s.entries| ==> Same(Covered(s.entries[i]), Covered(t.entries[i]))
  {
    RootPinsLinks(c.sha256, s.entries, t.entries);
    forall i | 0 <= i < |s.entries| ensures Same(Covered(s.entries[i]), Covered(t.entries[i])) {
      SameLinkSameEntry(s.entries[i], t.entries[i]);
    }
  }

  lemma {:induction false} JoinedAt(parts: seq<string>, i: nat)
    requires i < |parts| && forall k :: 0 <= k < |parts| ==> |parts[k]| == 64
    ensures |Join(parts)| == 64 * |parts| && Join(parts)[64 * i..64 * i + 64] == parts[i]
  {
    var n := |parts| - 1;
    JoinLength(parts);
    JoinLength(parts[..n]);
    if i < n { JoinedAt(parts[..n], i); }
  }

  /** The same fields without evidence_hash, in any order. */
  ghost predicate AllButEvidence(fields: seq<Member>, kept: seq<Member>) {
    Distinct(Keys(kept)) && forall m :: m in kept <==> m in fields && m.key != "evidence_hash"
  }

  /** What a link covers, in whatever order the entry lists its fields. */
  lemma {:induction false} LinkIs(e: Entry, kept: seq<Member>)
    requires WellFormed(Obj(e.fields)) && AllButEvidence(e.fields, kept)
    ensures LinkText(e) == Dumps(Obj(kept))
  {
    FilterWellFormed(e.fields);
    SameMembersSame(Filter(e.fields, IsNotEvidence), kept);
    DumpsInjective(Covered(e), Obj(kept));
  }

  lemma {:induction false} LinkAt(sha256: string -> string, entries: seq<Entry>, i: nat)
    requires i < |entries| && forall x :: |sha256(x)| == 64
    ensures |Joined(sha256, entries)| == 64 * |entries|
    ensures Joined(sha256, entries)[64 * i..64 * i + 64] == sha256(LinkText(entries[i]))
  {
    var parts := MapSeq(entries, LinkHash(sha256));
    forall k | 0 <= k < |parts| ensures |parts[k]| == 64 {
      assert parts[k] == sha256(LinkText(entries[k]));
    }
    JoinedAt(parts, i);
  }

  /** The root is the hash of the entries' hashes, one after the other, each of the canonical text of the
      entry without its evidence hash. */
  lemma {:induction false} ChainRootIs(sha256: string -> string, entries: seq<Entry>) returns (joined: string)
    requires entries != [] && forall x :: |sha256(x)| == 64
    requires forall i :: 0 <= i < |entries| ==> WellFormed(Obj(entries[i].fields))
    ensures ChainRoot(sha256, entries) == "sha256:" + sha256(joined) && |joined| == 64 * |entries|
    ensures forall i, kept :: 0 <= i < |entries| && AllButEvidence(entries[i].fields, kept) ==>
              joined[64 * i..64 * i + 64] == sha256(Dumps(Obj(kept)))
  {
    joined := Joined(sha256, entries);
    LinkAt(sha256, entries, 0);
    forall i, kept | 0 <= i < |entries| && AllButEvidence(entries[i].fields, kept)
      ensures joined[64 * i..64 * i + 64] == sha256(Dumps(Obj(kept)))
    {
      LinkAt(sha256, entries, i);
      LinkIs(entries[i], kept);
    }
  }

  /** Conversely, entries that agree apart from their evidence hashes have the same root. */
  lemma SameEntriesSameRoot(sha256: string -> string, a: seq<Entry>, b: seq<Entry>)
    requires |a| == |b|
    requires forall i :: 0 <= i < |a| ==> WellFormed(Obj(a[i].fields)) && WellFormed(Obj(b[i].fields))
    requires forall i :: 0 <= i < |a| ==> Same(Covered(a[i]), Covered(b[i]))
    ensures ChainRoot(sha256, a) == ChainRoot(sha256, b)
  {
    forall i | 0 <= i < |a| ensures LinkText(a[i]) == LinkText(b[i]) {
      SameLinkSameEntry(a[i], b[i]);
    }
    assert MapSeq(a, LinkHash(sha256)) == MapSeq(b, LinkHash(sha256));
  }
}
