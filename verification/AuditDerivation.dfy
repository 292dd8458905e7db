/** The report derivations of core_runtime/core/audit_event.py: lists of ticked events made
    from compatibility, expert and Gaia surrogate reports. */
module AuditDerivation {
  import opened Hashing
  import opened Results
  import opened Ordering
  import opened PyText
  import opened Canonicalization
  import opened AuditEvents
  import opened AuditTrail

  /** One derived event, with neither id nor fingerprint declared. */
  function DraftOf(eventType: string, tick: int, correlation: string, payload: seq<PyItem>): Draft {
    Draft("", eventType, "derived", tick, correlation, payload, "", AUDIT_SCHEMA_VERSION)
  }

  /** The event of a draft that declares nothing. */
  function EventOf(rt: Runtime, d: Draft): AuditEvent {
    Sealed(rt, d.eventType, Derived, d.logicalTick, d.correlationId, Normalize(rt, PDict(d.payload)))
  }

  function EventsOf(rt: Runtime, drafts: seq<Draft>): (r: seq<AuditEvent>)
    ensures |r| == |drafts| && forall i :: 0 <= i < |drafts| ==> r[i] == EventOf(rt, drafts[i])
  {
    seq(|drafts|, i requires 0 <= i < |drafts| => EventOf(rt, drafts[i]))
  }

  function Entry(name: string, value: PyVal): PyItem { PyItem(StrKey(name), value) }

  // ---- Rows that become two events each --------------------------------------------

  /** What a sorted row contributes; rows with a blank id contribute nothing. */
  datatype Item = Item(
    id: string,                 // the stripped id, "" when blank
    namespace: string,
    firstType: string,
    firstPayload: seq<PyItem>,
    secondType: string,
    secondPayload: seq<PyItem>)

  function CorrelationFor(item: Item): string { item.namespace + "::" + item.id }

  function TwoDrafts(item: Item, index: nat): seq<Draft> {
    if item.id == "" then []
    else [DraftOf(item.firstType, index * 2, CorrelationFor(item), item.firstPayload),
          DraftOf(item.secondType, index * 2 + 1, CorrelationFor(item), item.secondPayload)]
  }

  function ItemDrafts(items: seq<Item>): seq<Draft> {
    if items == [] then []
    else
      var n := |items| - 1;
      ItemDrafts(items[..n]) + TwoDrafts(items[n], n)
  }

  /** The items' events, then the event of the report, whose tick is the number of events. */
  function Ticked(items: seq<Item>, reportType: string, correlation: string, payload: seq<PyItem>): seq<Draft> {
    var drafts := ItemDrafts(items);
    drafts + [DraftOf(reportType, |drafts|, correlation, payload)]
  }

  function Kept(items: seq<Item>): nat {
    if items == [] then 0 else Kept(items[..|items| - 1]) + if items[|items| - 1].id == "" then 0 else 1
  }

  /** No skipped item sorts before a kept one. */
  ghost predicate BlanksLast(items: seq<Item>) {
    forall i, j :: 0 <= i < j < |items| && items[i].id == "" ==> items[j].id == ""
  }

  ghost predicate TicksIncrease(drafts: seq<Draft>) {
    forall i, j :: 0 <= i < j < |drafts| ==> drafts[i].logicalTick < drafts[j].logicalTick
  }

  lemma {:induction false} ItemTicks(items: seq<Item>)
    ensures var events := ItemDrafts(items);
            && |events| == 2 * Kept(items) && Kept(items) <= |items|
            && TicksIncrease(events)
            && forall i :: 0 <= i < |events| ==> i <= events[i].logicalTick < 2 * |items|
  {
    if items != [] {
      var n := |items| - 1;
      ItemTicks(items[..n]);
      var before, events := ItemDrafts(items[..n]), ItemDrafts(items);
      forall i, j | 0 <= i < j < |events| ensures events[i].logicalTick < events[j].logicalTick {
        if j < |before| { assert before[i].logicalTick < before[j].logicalTick; }
      }
    }
  }

  /** If blank items come last, tick k belongs to event k. */
  lemma {:induction false} BlanksLastTicks(items: seq<Item>)
    requires BlanksLast(items)
    ensures forall i :: 0 <= i < |ItemDrafts(items)| ==> ItemDrafts(items)[i].logicalTick == i
    ensures items != [] && items[|items| - 1].id != "" ==> Kept(items) == |items|
  {
    if items != [] {
      var n := |items| - 1;
      BlanksLastTicks(items[..n]);
      ItemTicks(items[..n]);
      if items[n].id != "" && n > 0 { assert items[n - 1].id != ""; }
    }
  }

  /** A kept item after a skipped one has a tick beyond the number of events. */
  lemma {:induction false} SkippedBeforeKept(items: seq<Item>, i: nat, j: nat) returns (k: nat)
    requires i < j < |items| && items[i].id == "" && items[j].id != ""
    ensures k < |ItemDrafts(items)| && ItemDrafts(items)[k].logicalTick >= |ItemDrafts(items)|
  {
    var n := |items| - 1;
    var before := items[..n];
    ItemTicks(items);
    KeptBelow(items, i);
    if items[n].id != "" {
      k := |ItemDrafts(items)| - 1;
    } else {
      assert before[i].id == "" && before[j].id != "";
      k := SkippedBeforeKept(before, i, j);
    }
  }

  lemma {:induction false} KeptBelow(items: seq<Item>, i: nat)
    requires i < |items| && items[i].id == ""
    ensures Kept(items) <= |items| - 1
  {
    var n := |items| - 1;
    if i < n { KeptBelow(items[..n], i); } else { KeptAtMost(items[..n]); }
  }

  lemma {:induction false} KeptAtMost(items: seq<Item>)
    ensures Kept(items) <= |items|
  {
    if items != [] { KeptAtMost(items[..|items| - 1]); }
  }

  /** The report's event has the greatest tick exactly when no skipped row sorts before a kept
      one; in that case the ticks are exactly 0 .. 2m for m kept rows. */
  lemma {:induction false} ReportIsLastIff(items: seq<Item>, reportType: string, correlation: string,
                                           payload: seq<PyItem>)
    ensures var events := Ticked(items, reportType, correlation, payload);
            && |events| == 2 * Kept(items) + 1
            && TicksIncrease(events[..2 * Kept(items)])
            && events[2 * Kept(items)].logicalTick == 2 * Kept(items)
            && (TicksIncrease(events) <==> BlanksLast(items))
            && (BlanksLast(items) ==> forall k :: 0 <= k < |events| ==> events[k].logicalTick == k)
  {
    var body, events := ItemDrafts(items), Ticked(items, reportType, correlation, payload);
    ItemTicks(items);
    assert events[..2 * Kept(items)] == body;
    if BlanksLast(items) {
      BlanksLastTicks(items);
    } else {
      var i, j :| 0 <= i < j < |items| && items[i].id == "" && items[j].id != "";
      var k := SkippedBeforeKept(items, i, j);
      assert events[k].logicalTick >= events[|body|].logicalTick;
    }
  }

  // ---- Derived events never share an id --------------------------------------------

  /** The hash keeps the identity texts of these events apart. */
  ghost predicate CollisionFree(rt: Runtime, events: seq<AuditEvent>) {
    forall i, j :: 0 <= i < |events| && 0 <= j < |events| ==>
      NoCollision(rt.sha256, IdentityOf(rt, events[i]), IdentityOf(rt, events[j]))
  }

  lemma {:induction false} ItemCorrelations(items: seq<Item>, namespace: string)
    requires forall i :: 0 <= i < |items| ==> items[i].namespace == namespace
    ensures forall i :: 0 <= i < |ItemDrafts(items)| ==> namespace + "::" <= ItemDrafts(items)[i].correlationId
  {
    if items != [] {
      ItemCorrelations(items[..|items| - 1], namespace);
    }
  }

  lemma PrefixesDiffer(a: string, b: string, x: string, y: string)
    requires a + "::" <= x && b + "::" <= y
    requires exists i :: 0 <= i < |a| && i < |b| && a[i] != b[i]
    ensures x != y
  {
    var i :| 0 <= i < |a| && i < |b| && a[i] != b[i];
    assert (a + "::")[i] == a[i] && (b + "::")[i] == b[i];
    assert x[i] == a[i] && y[i] == b[i];
  }

  lemma IdsDiffer(rt: Runtime, d: Draft, f: Draft)
    requires NoCollision(rt.sha256, IdentityOf(rt, EventOf(rt, d)), IdentityOf(rt, EventOf(rt, f)))
    requires d.logicalTick != f.logicalTick || d.correlationId != f.correlationId
    ensures EventOf(rt, d).eventId != EventOf(rt, f).eventId
  {
    IdentityTextsDiffer(rt, EventOf(rt, d), EventOf(rt, f));
  }

  lemma AllIdsDiffer(rt: Runtime, drafts: seq<Draft>)
    requires forall i, j :: 0 <= i < j < |drafts| ==>
               drafts[i].logicalTick != drafts[j].logicalTick || drafts[i].correlationId != drafts[j].correlationId
    requires CollisionFree(rt, EventsOf(rt, drafts))
    ensures DistinctIds(EventsOf(rt, drafts))
  {
    var events := EventsOf(rt, drafts);
    forall i, j | 0 <= i < j < |events| ensures events[i].eventId != events[j].eventId {
      IdsDiffer(rt, drafts[i], drafts[j]);
    }
  }

  /** Items have different ticks, and the report lives in another namespace, so drafts differ
      in tick or correlation even where the report's tick repeats an item's. */
  lemma TickedDiffer(items: seq<Item>, namespace: string, reportType: string, correlation: string, payload: seq<PyItem>)
    requires forall i :: 0 <= i < |items| ==> items[i].namespace == namespace
    requires "report" + "::" <= correlation
    requires exists i :: 0 <= i < |namespace| && i < |"report"| && namespace[i] != "report"[i]
    ensures var drafts := Ticked(items, reportType, correlation, payload);
            forall i, j :: 0 <= i < j < |drafts| ==>
              drafts[i].logicalTick != drafts[j].logicalTick || drafts[i].correlationId != drafts[j].correlationId
  {
    var body, drafts := ItemDrafts(items), Ticked(items, reportType, correlation, payload);
    ItemTicks(items);
    ItemCorrelations(items, namespace);
    forall i, j | 0 <= i < j < |drafts|
      ensures drafts[i].logicalTick != drafts[j].logicalTick || drafts[i].correlationId != drafts[j].correlationId
    {
      assert drafts[i] == body[i];
      if j < |body| {
        assert body[i].logicalTick < body[j].logicalTick;
      } else {
        PrefixesDiffer(namespace, "report", drafts[i].correlationId, correlation);
      }
    }
  }

  /** Hence no two events of a report share an id, whatever its rows. */
  lemma ReportIdsDistinct(rt: Runtime, items: seq<Item>, namespace: string, reportType: string, id: string,
                          payload: seq<PyItem>)
    requires forall i :: 0 <= i < |items| ==> items[i].namespace == namespace
    requires namespace == "pair" || namespace == "proposal"
    requires CollisionFree(rt, EventsOf(rt, Ticked(items, reportType, "report::" + id, payload)))
    ensures DistinctIds(EventsOf(rt, Ticked(items, reportType, "report::" + id, payload)))
  {
    assert "report" + "::" <= "report::" + id;
    assert namespace[0] != "report"[0];
    TickedDiffer(items, namespace, reportType, "report::" + id, payload);
    AllIdsDiffer(rt, Ticked(items, reportType, "report::" + id, payload));
  }

  // ---- Correlation ids of derived events -------------------------------------------

  /** A correlation id made from an id that is not blank is accepted as it is. */
  lemma NamespaceAccepts(k: nat, id: string)
    requires k < |ALLOWED_NAMESPACES| && Strip(id) != ""
    ensures var c := ALLOWED_NAMESPACES[k] + "::" + Strip(id);
            CorrelationId(ALLOWED_NAMESPACES[k], id) == Ok(c) && ValidateCorrelation(c) == Ok(c)
  {
    CorrelationIdOf(k, id);
  }

  lemma EventsSnoc(rt: Runtime, drafts: seq<Draft>, d: Draft, r: Result<AuditEvent, Error>)
    requires r == Ok(EventOf(rt, d))
    ensures EventsOf(rt, drafts + [d]) == EventsOf(rt, drafts) + [r.value]
  {
  }

  /** Construction accepts the draft as it is. */
  predicate Recordable(d: Draft, correlation: string) {
    d.logicalTick >= 0 && d == DraftOf(d.eventType, d.logicalTick, correlation, d.payload)
  }

  /** events.append(AuditEvent(...)) */
  method Append(rt: Runtime, ghost drafts: seq<Draft>, events: seq<AuditEvent>, d: Draft) returns (r: seq<AuditEvent>)
    requires events == EventsOf(rt, drafts)
    requires Recordable(d, d.correlationId) && ValidateCorrelation(d.correlationId) == Ok(d.correlationId)
    ensures r == EventsOf(rt, drafts + [d])
  {
    var made := Construct(rt, d);
    EventsSnoc(rt, drafts, d, made);
    r := events + [made.value];
  }

  /** The loop shared by both reports: a pair of events for each row that is not blank. */
  method RecordItems(rt: Runtime, items: seq<Item>, k: nat) returns (events: seq<AuditEvent>)
    requires k < |ALLOWED_NAMESPACES|
    requires forall i :: 0 <= i < |items| ==>
              items[i].namespace == ALLOWED_NAMESPACES[k] && Strip(items[i].id) == items[i].id
    ensures events == EventsOf(rt, ItemDrafts(items))
  {
    events := [];
    for index := 0 to |items|
      invariant events == EventsOf(rt, ItemDrafts(items[..index]))
    {
      var item := items[index];
      ghost var before := ItemDrafts(items[..index]);
      assert items[..index + 1][..index] == items[..index];
      assert ItemDrafts(items[..index + 1]) == before + TwoDrafts(item, index);
      if item.id == "" {
        assert before + [] == before;
        continue;
      }
      NamespaceAccepts(k, item.id);
      var correlation := CorrelationId(item.namespace, item.id).value;
      var first := DraftOf(item.firstType, index * 2, correlation, item.firstPayload);
      var second := DraftOf(item.secondType, index * 2 + 1, correlation, item.secondPayload);
      events := Append(rt, before, events, first);
      events := Append(rt, before + [first], events, second);
      assert before + [first] + [second] == before + TwoDrafts(item, index);
    }
    assert items[..|items|] == items;
  }

  /** All events of a report, or the rejection of a blank report id. */
  method RecordReport(rt: Runtime, items: seq<Item>, k: nat, reportType: string, reportId: string, payload: seq<PyItem>)
    returns (r: Result<seq<AuditEvent>, Error>)
    requires k < |ALLOWED_NAMESPACES|
    requires forall i :: 0 <= i < |items| ==>
              items[i].namespace == ALLOWED_NAMESPACES[k] && Strip(items[i].id) == items[i].id
    ensures r == if Strip(reportId) == "" then Raised(EmptyIdentifier)
                 else Ok(EventsOf(rt, Ticked(items, reportType, "report::" + Strip(reportId), payload)))
  {
    assert ALLOWED_NAMESPACES[3] == "report" && "report" + "::" == "report::";
    CorrelationIdOf(3, reportId);
    var correlation := CorrelationId("report", reportId);
    if correlation.Raised? { return Raised(correlation.error); }
    var events := RecordItems(rt, items, k);
    NamespaceAccepts(3, reportId);
    events := Append(rt, ItemDrafts(items), events, DraftOf(reportType, |events|, correlation.value, payload));
    r := Ok(events);
  }

  // ---- Rows and reports ------------------------------------------------------------

  /** None: an entry that is not a mapping, which is ignored. */
  function Mappings<T>(rows: seq<Option<T>>): seq<T> {
    if rows == [] then []
    else Mappings(rows[..|rows| - 1]) + if rows[|rows| - 1].Some? then [rows[|rows| - 1].value] else []
  }

  /** Python compares tuples of strings field by field. */
  function TupleLeq(a: seq<string>, b: seq<string>): bool {
    if a == [] then true
    else if b == [] then false
    else if a[0] != b[0] then StrLeq(a[0], b[0])
    else TupleLeq(a[1..], b[1..])
  }

  /** A row of a compatibility matrix; its fields are the str() of what the report holds. */
  datatype Pair = Pair(
    pairId: string, profileId: string, proposalId: string,
    expectedStatus: string, actualStatus: string, incompatibleReason: PyVal)

  predicate PairLeq(a: Pair, b: Pair) {
    TupleLeq([a.pairId, a.profileId, a.proposalId, a.actualStatus],
             [b.pairId, b.profileId, b.proposalId, b.actualStatus])
  }

  predicate Contains(s: string, t: string) {
    t <= s || (s != "" && Contains(s[1..], t))
  }

  /** _compatibility_terminal_event_type, with str.lower() */
  function TerminalType(lower: string -> string, pair: Pair): string {
    if lower(pair.actualStatus) != "compatible" then "CompatibilityRejected"
    else if Contains(lower(pair.pairId), "certified") || Contains(lower(pair.profileId), "certified")
    then "CompatibilityCertified"
    else "CompatibilityAccepted"
  }

  function Decision(terminalType: string): string {
    if terminalType == "CompatibilityRejected" then "rejected"
    else if terminalType == "CompatibilityCertified" then "certified"
    else "accepted"
  }

  function PairItem(lower: string -> string, reportId: string, pair: Pair): Item {
    var id := Strip(pair.pairId);
    var payload := [
      Entry("pair_id", PStr(id)), Entry("profile_id", PStr(pair.profileId)),
      Entry("proposal_id", PStr(pair.proposalId)),
      Entry("expected_status", PStr(pair.expectedStatus)), Entry("actual_status", PStr(pair.actualStatus)),
      Entry("incompatible_reason", pair.incompatibleReason), Entry("report_id", PStr(reportId))];
    var terminal := TerminalType(lower, pair);
    Item(id, "pair", "CompatibilityChecked", payload, terminal, payload + [Entry("decision", PStr(Decision(terminal)))])
  }

  datatype CompatibilityReport = CompatibilityReport(
    matrix: seq<Option<Pair>>, pairs: seq<Option<Pair>>, schema: string, status: string, summary: PyVal)

  /** The rows of the matrix, or of the list of pairs when there is no matrix, in order. */
  function SortedPairs(report: CompatibilityReport): seq<Pair> {
    SortBy(Mappings(if report.matrix != [] then report.matrix else report.pairs), PairLeq)
  }

  function PairItems(lower: string -> string, reportId: string, pairs: seq<Pair>): seq<Item> {
    seq(|pairs|, i requires 0 <= i < |pairs| => PairItem(lower, reportId, pairs[i]))
  }

  function CompatibilityPayload(report: CompatibilityReport, reportId: string, count: nat): seq<PyItem> {
    [Entry("report_id", PStr(reportId)), Entry("report_schema", PStr(report.schema)),
     Entry("status", PStr(report.status)),
     Entry("summary", report.summary), Entry("pair_count", PInt(count))]
  }

  function CompatibilityDrafts(lower: string -> string, report: CompatibilityReport, reportId: string): seq<Draft> {
    var pairs := SortedPairs(report);
    Ticked(PairItems(lower, reportId, pairs), "CompatibilityMatrixReported", "report::" + Strip(reportId),
           CompatibilityPayload(report, reportId, |pairs|))
  }

  /** derive_compatibility_audit_events; computed is the report's own fingerprint. */
  method DeriveCompatibility(rt: Runtime, lower: string -> string, report: CompatibilityReport, source: string,
                             computed: string)
    returns (r: Result<seq<AuditEvent>, Error>)
    ensures var reportId := if source != "" then source else computed;
            r == if Strip(reportId) == "" then Raised(EmptyIdentifier)
                 else Ok(EventsOf(rt, CompatibilityDrafts(lower, report, reportId)))
    ensures var reportId := if source != "" then source else computed;
            r.Ok? ==> exists pairs, at :: CompatibilityTrail(rt, lower, report, reportId, r.value, pairs, at)
  {
    var reportId := if source != "" then source else computed;
    var pairs := SortedPairs(report);
    var items := PairItems(lower, reportId, pairs);
    assert ALLOWED_NAMESPACES[2] == "pair";
    forall i | 0 <= i < |items| ensures items[i].namespace == "pair" && Strip(items[i].id) == items[i].id {
      StripTwice(pairs[i].pairId);
    }
    r := RecordReport(rt, items, 2, "CompatibilityMatrixReported", reportId,
                      CompatibilityPayload(report, reportId, |pairs|));
    ghost var rows, at := CompatibilityTrailIs(rt, lower, report, reportId);
  }

  /** Indexing the events of one compatibility report never meets a duplicate id. */
  lemma CompatibilityIdsDistinct(rt: Runtime, lower: string -> string, report: CompatibilityReport, reportId: string)
    requires CollisionFree(rt, EventsOf(rt, CompatibilityDrafts(lower, report, reportId)))
    ensures DistinctIds(EventsOf(rt, CompatibilityDrafts(lower, report, reportId)))
  {
    var pairs := SortedPairs(report);
    ReportIdsDistinct(rt, PairItems(lower, reportId, pairs), "pair", "CompatibilityMatrixReported", Strip(reportId),
                      CompatibilityPayload(report, reportId, |pairs|));
  }

  datatype Proposal = Proposal(proposalId: string, decision: string, reasonCode: string, status: string, file: string)

  predicate ProposalLeq(a: Proposal, b: Proposal) {
    TupleLeq([a.proposalId, a.file, a.decision], [b.proposalId, b.file, b.decision])
  }

  /** _decision_event_type */
  function DecisionType(lower: string -> string, decision: string): string {
    var d := Strip(lower(decision));
    if d == "certified" then "ProposalCertified"
    else if d == "accepted" then "ProposalAccepted"
    else if d == "unsafe" then "ProposalUnsafe"
    else if d == "unsupported" then "ProposalUnsupported"
    else if d == "missing_evidence" then "ProposalMissingEvidence"
    else "ProposalRejected"
  }

  function ProposalItem(lower: string -> string, reportId: string, p: Proposal): Item {
    var id := Strip(p.proposalId);
    var payload := [
      Entry("proposal_id", PStr(id)), Entry("decision", PStr(p.decision)), Entry("reason_code", PStr(p.reasonCode)),
      Entry("status", PStr(p.status)), Entry("file", PStr(p.file)), Entry("report_id", PStr(reportId))];
    Item(id, "proposal", "ProposalEvaluated", payload, DecisionType(lower, p.decision), payload)
  }

  datatype ExpertReport = ExpertReport(proposals: seq<Option<Proposal>>, schema: string, status: string, summary: PyVal)

  function SortedProposals(report: ExpertReport): seq<Proposal> { SortBy(Mappings(report.proposals), ProposalLeq) }

  function ProposalItems(lower: string -> string, reportId: string, proposals: seq<Proposal>): seq<Item> {
    seq(|proposals|, i requires 0 <= i < |proposals| => ProposalItem(lower, reportId, proposals[i]))
  }

  function ExpertPayload(report: ExpertReport, reportId: string, count: nat): seq<PyItem> {
    [Entry("report_id", PStr(reportId)), Entry("report_schema", PStr(report.schema)),
     Entry("status", PStr(report.status)),
     Entry("summary", report.summary), Entry("proposal_count", PInt(count))]
  }

  function ExpertDrafts(lower: string -> string, report: ExpertReport, reportId: string): seq<Draft> {
    var proposals := SortedProposals(report);
    Ticked(ProposalItems(lower, reportId, proposals), "ExpertProposalBatchReported", "report::" + Strip(reportId),
           ExpertPayload(report, reportId, |proposals|))
  }

  /** derive_expert_report_audit_events */
  method DeriveExpertReport(rt: Runtime, lower: string -> string, report: ExpertReport, source: string,
                            computed: string)
    returns (r: Result<seq<AuditEvent>, Error>)
    ensures var reportId := if source != "" then source else computed;
            r == if Strip(reportId) == "" then Raised(EmptyIdentifier)
                 else Ok(EventsOf(rt, ExpertDrafts(lower, report, reportId)))
    ensures var reportId := if source != "" then source else computed;
            r.Ok? ==> exists proposals, at :: ExpertTrail(rt, lower, report, reportId, r.value, proposals, at)
  {
    var reportId := if source != "" then source else computed;
    var proposals := SortedProposals(report);
    var items := ProposalItems(lower, reportId, proposals);
    assert ALLOWED_NAMESPACES[0] == "proposal";
    forall i | 0 <= i < |items| ensures items[i].namespace == "proposal" && Strip(items[i].id) == items[i].id {
      StripTwice(proposals[i].proposalId);
    }
    r := RecordReport(rt, items, 0, "ExpertProposalBatchReported", reportId,
                      ExpertPayload(report, reportId, |proposals|));
    ghost var rows, at := ExpertTrailIs(rt, lower, report, reportId);
  }

  lemma ExpertIdsDistinct(rt: Runtime, lower: string -> string, report: ExpertReport, reportId: string)
    requires CollisionFree(rt, EventsOf(rt, ExpertDrafts(lower, report, reportId)))
    ensures DistinctIds(EventsOf(rt, ExpertDrafts(lower, report, reportId)))
  {
    var proposals := SortedProposals(report);
    ReportIdsDistinct(rt, ProposalItems(lower, reportId, proposals), "proposal", "ExpertProposalBatchReported",
                      Strip(reportId), ExpertPayload(report, reportId, |proposals|));
  }

  /** A blank row sorts first, so one blank row is enough for the report's event to share its
      tick with the event of a kept row. */
  lemma ReportIsNotAlwaysLast(lower: string -> string, summary: PyVal)
    ensures var blank := Pair("", "", "", "", "", PNone);
            var kept := Pair("p", "", "", "", "", PNone);
            var report := CompatibilityReport([Some(kept), Some(blank)], [], "", "", summary);
            SortedPairs(report) == [blank, kept] && !TicksIncrease(CompatibilityDrafts(lower, report, "r"))
  {
    var blank, kept := Pair("", "", "", "", "", PNone), Pair("p", "", "", "", "", PNone);
    var report := CompatibilityReport([Some(kept), Some(blank)], [], "", "", summary);
    BlankRowSortsFirst(blank, kept);
    var items := PairItems(lower, "r", [blank, kept]);
    assert !IsSpace('p');
    StripKeeps("p");
    assert items[0].id == "" && items[1].id == "p";
    assert !BlanksLast(items);
    ReportIsLastIff(items, "CompatibilityMatrixReported", "report::" + Strip("r"),
                    CompatibilityPayload(report, "r", 2));
  }

  lemma BlankRowSortsFirst(blank: Pair, kept: Pair)
    requires blank == Pair("", "", "", "", "", PNone) && kept == Pair("p", "", "", "", "", PNone)
    ensures SortBy(Mappings([Some(kept), Some(blank)]), PairLeq) == [blank, kept]
  {
    var rows := [Some(kept), Some(blank)];
    assert rows[..1] == [Some(kept)] && rows[..1][..0] == [];
    assert Mappings(rows[..1]) == [kept];
    assert Mappings(rows) == [kept] + [blank];
    assert Points("p")[0] == 112 && Points("") == [];
    assert !StrLeq("p", "");
    assert !PairLeq(kept, blank);
    assert [kept, blank][1..] == [blank] && [blank][1..] == [];
    assert SortBy([blank], PairLeq) == [blank];
    assert Insert(kept, [blank], PairLeq) == [blank] + Insert(kept, [blank][1..], PairLeq);
  }

  // ---- The trail of a report, event by event ---------------------------------------

  /** The event has this type, tick, correlation and payload. */
  ghost predicate Tells(e: AuditEvent, eventType: string, tick: int, correlation: string, facts: seq<Member>) {
    && e.eventType == eventType && e.authority == Derived && e.logicalTick == tick && e.correlationId == correlation
    && e.payload.Obj? && forall m :: m in e.payload.members <==> m in facts
  }

  /** A payload with distinct keys keeps all its items. */
  lemma {:induction false} PayloadTells(rt: Runtime, d: Draft, facts: seq<Member>)
    requires NormalizeItems(rt, d.payload) == facts && Distinct(Keys(facts))
    ensures Tells(EventOf(rt, d), d.eventType, d.logicalTick, d.correlationId, facts)
  {
    var items := d.payload;
    MembersOfDict(rt, items);
    forall m: Member ensures m in DictMembers(rt, items) <==> m in facts { FactStays(rt, items, facts, m); }
  }

  lemma {:induction false} FactStays(rt: Runtime, items: seq<PyItem>, facts: seq<Member>, m: Member)
    requires NormalizeItems(rt, items) == facts && Distinct(Keys(facts))
    ensures m in facts <==> exists i: nat :: StaysAt(rt, items, m, i)
  {
    if m in facts {
      var i := IndexOf(facts, m);
      forall k | i < k < |items| ensures items[k].key.text != m.key {
        assert Keys(facts)[i] != Keys(facts)[k];
      }
      assert StaysAt(rt, items, m, i);
    }
    if i: nat :| StaysAt(rt, items, m, i) { assert facts[i] == m; }
  }

  /** The positions of the items with an id. */
  function KeptAt(items: seq<Item>): seq<nat> {
    if items == [] then []
    else
      var n := |items| - 1;
      KeptAt(items[..n]) + if items[n].id == "" then [] else [n]
  }

  /** These are the positions, in order, of the rows whose stripped ids are not blank. */
  ghost predicate KeepsNamed(ids: seq<string>, at: seq<nat>) {
    Ascending(at) && forall i: nat :: i in at <==> i < |ids| && Strip(ids[i]) != ""
  }

  /** Each item with an id gives two events, and the others none. */
  lemma {:induction false} ItemDraftsAre(items: seq<Item>)
    ensures var at, drafts := KeptAt(items), ItemDrafts(items);
            && Ascending(at) && (forall i: nat :: i in at <==> i < |items| && items[i].id != "")
            && |drafts| == 2 * |at|
            && forall k :: 0 <= k < |at| ==> at[k] < |items| && PairAt(items[at[k]], at[k], drafts, k)
  {
    KeptAre(items);
    if items != [] {
      var n := |items| - 1;
      var prior, at := items[..n], KeptAt(items);
      ItemDraftsAre(prior);
      forall k | 0 <= k < |at| ensures at[k] < |items| && PairAt(items[at[k]], at[k], ItemDrafts(items), k) {
        if k < |KeptAt(prior)| { PairStays(prior[at[k]], at[k], ItemDrafts(prior), TwoDrafts(items[n], n), k); }
      }
    }
  }

  lemma {:induction false} KeptAre(items: seq<Item>)
    ensures Ascending(KeptAt(items)) && forall i: nat :: i in KeptAt(items) <==> i < |items| && items[i].id != ""
  {
    if items != [] {
      var n := |items| - 1;
      KeptAre(items[..n]);
      var before, at := KeptAt(items[..n]), KeptAt(items);
      forall i: nat ensures i in at <==> i < |items| && items[i].id != "" {
        assert i in at <==> i in before || (i == n && items[n].id != "");
      }
      forall i, j | 0 <= i < j < |at| ensures at[i] < at[j] { assert before[i] in before; }
    }
  }

  lemma PairStays(item: Item, index: nat, drafts: seq<Draft>, more: seq<Draft>, k: nat)
    requires PairAt(item, index, drafts, k)
    ensures PairAt(item, index, drafts + more, k)
  {
  }

  /** Drafts 2k and 2k + 1 are those of the item at this index. */
  predicate PairAt(item: Item, index: nat, drafts: seq<Draft>, k: nat) {
    && 2 * k + 1 < |drafts|
    && drafts[2 * k] == DraftOf(item.firstType, index * 2, CorrelationFor(item), item.firstPayload)
    && drafts[2 * k + 1] == DraftOf(item.secondType, index * 2 + 1, CorrelationFor(item), item.secondPayload)
  }

  // ---- The order of the rows -------------------------------------------------------

  lemma {:induction false} TupleOrder(a: seq<string>, b: seq<string>)
    ensures TupleLeq(a, b) || TupleLeq(b, a)
  {
    if a != [] && b != [] {
      StrOrder(a[0], b[0]);
      if a[0] == b[0] { TupleOrder(a[1..], b[1..]); }
    }
  }

  lemma {:induction false} TupleTransitive(a: seq<string>, b: seq<string>, c: seq<string>)
    requires TupleLeq(a, b) && TupleLeq(b, c)
    ensures TupleLeq(a, c)
  {
    if a != [] && b != [] && c != [] {
      if a[0] == b[0] == c[0] {
        TupleTransitive(a[1..], b[1..], c[1..]);
      } else if StrLeq(a[0], b[0]) && StrLeq(b[0], c[0]) {
        StrTransitive(a[0], b[0], c[0]);
        StrOrder(a[0], b[0]);
      }
    }
  }

  /** One more component of the sort key. */
  lemma {:induction false} TupleCons(a: string, b: string, x: seq<string>, y: seq<string>)
    ensures TupleLeq([a] + x, [b] + y) <==> if a == b then TupleLeq(x, y) else StrLeq(a, b)
  {
    assert ([a] + x)[1..] == x && ([b] + y)[1..] == y;
  }

  lemma {:induction false} MappingsCount<T(!new)>(rows: seq<Option<T>>)
    ensures forall x :: multiset(Mappings(rows))[x] == multiset(rows)[Some(x)]
  {
    if rows != [] {
      var n := |rows| - 1;
      MappingsCount(rows[..n]);
      assert rows == rows[..n] + [rows[n]];
      forall x ensures multiset(Mappings(rows))[x] == multiset(rows)[Some(x)] {
        assert multiset(rows) == multiset(rows[..n]) + multiset{rows[n]};
      }
    }
  }

  lemma OccursNext(s: string, t: string, i: int)
    requires s != ""
    ensures i >= 0 ==> (OccursAt(s[1..], t, i) <==> OccursAt(s, t, i + 1))
  {
    if 0 <= i <= |s| - 1 - |t| { assert s[1..][i..i + |t|] == s[i + 1..i + 1 + |t|]; }
  }

  lemma {:induction false} ContainsIff(s: string, t: string)
    ensures Contains(s, t) <==> Occurs(s, t)
  {
    if t <= s {
      assert OccursAt(s, t, 0);
    } else if s != "" {
      ContainsIff(s[1..], t);
      if i :| OccursAt(s, t, i) { OccursNext(s, t, i - 1); }
      if i :| OccursAt(s[1..], t, i) { OccursNext(s, t, i); }
    }
  }

  /** t stands somewhere in s. */
  ghost predicate Occurs(s: string, t: string) {
    exists i :: OccursAt(s, t, i)
  }

  // ---- Compatibility trails --------------------------------------------------------

  /** The rows are sorted by their four ids and states, one after the other. */
  ghost predicate PairsInOrder(pairs: seq<Pair>) {
    forall i, j :: 0 <= i < j < |pairs| ==>
      var a, b := pairs[i], pairs[j];
      if a.pairId != b.pairId then StrLeq(a.pairId, b.pairId)
      else if a.profileId != b.profileId then StrLeq(a.profileId, b.profileId)
      else if a.proposalId != b.proposalId then StrLeq(a.proposalId, b.proposalId)
      else StrLeq(a.actualStatus, b.actualStatus)
  }

  /** What both events of a pair say. */
  function PairFacts(rt: Runtime, reportId: string, pair: Pair): seq<Member> {
    [Member("pair_id", Str(Strip(pair.pairId))), Member("profile_id", Str(pair.profileId)),
     Member("proposal_id", Str(pair.proposalId)), Member("expected_status", Str(pair.expectedStatus)),
     Member("actual_status", Str(pair.actualStatus)),
     Member("incompatible_reason", Normalize(rt, pair.incompatibleReason)), Member("report_id", Str(reportId))]
  }

  /** A pair is first reported as checked, and then as what came of it. */
  ghost predicate TellsPair(rt: Runtime, lower: string -> string, reportId: string, pair: Pair, index: nat,
                            checked: AuditEvent, decided: AuditEvent)
  {
    var correlation, facts := "pair::" + Strip(pair.pairId), PairFacts(rt, reportId, pair);
    && Tells(checked, "CompatibilityChecked", 2 * index, correlation, facts)
    && if lower(pair.actualStatus) != "compatible" then
         Tells(decided, "CompatibilityRejected", 2 * index + 1, correlation,
               facts + [Member("decision", Str("rejected"))])
       else if Occurs(lower(pair.pairId), "certified") || Occurs(lower(pair.profileId), "certified") then
         Tells(decided, "CompatibilityCertified", 2 * index + 1, correlation,
               facts + [Member("decision", Str("certified"))])
       else
         Tells(decided, "CompatibilityAccepted", 2 * index + 1, correlation,
               facts + [Member("decision", Str("accepted"))])
  }

  /** Two events for each pair with an id, in order, and one for the report. */
  ghost predicate CompatibilityTrail(rt: Runtime, lower: string -> string, report: CompatibilityReport,
                                     reportId: string, events: seq<AuditEvent>, pairs: seq<Pair>, at: seq<nat>)
  {
    var rows := if report.matrix != [] then report.matrix else report.pairs;
    && (forall p :: multiset(pairs)[p] == multiset(rows)[Some(p)]) && PairsInOrder(pairs)
    && Ascending(at) && (forall i: nat :: i in at <==> i < |pairs| && Strip(pairs[i].pairId) != "")
    && |events| == 2 * |at| + 1
    && (forall k :: 0 <= k < |at| ==>
          at[k] < |pairs|
          && TellsPair(rt, lower, reportId, pairs[at[k]], at[k], events[2 * k], events[2 * k + 1]))
    && Tells(events[2 * |at|], "CompatibilityMatrixReported", 2 * |at|, "report::" + Strip(reportId),
             ReportFacts(rt, reportId, report.schema, report.status, report.summary, "pair_count", |pairs|))
  }

  lemma PairOrder()
    ensures TotalPreorder(PairLeq)
  {
    forall a, b ensures PairLeq(a, b) || PairLeq(b, a) {
      TupleOrder([a.pairId, a.profileId, a.proposalId, a.actualStatus],
                 [b.pairId, b.profileId, b.proposalId, b.actualStatus]);
    }
    forall a, b, c | PairLeq(a, b) && PairLeq(b, c) ensures PairLeq(a, c) {
      TupleTransitive([a.pairId, a.profileId, a.proposalId, a.actualStatus],
                      [b.pairId, b.profileId, b.proposalId, b.actualStatus],
                      [c.pairId, c.profileId, c.proposalId, c.actualStatus]);
    }
  }

  lemma PairLeqIff(a: Pair, b: Pair)
    ensures PairLeq(a, b)
            <==> if a.pairId != b.pairId then StrLeq(a.pairId, b.pairId)
                 else if a.profileId != b.profileId then StrLeq(a.profileId, b.profileId)
                 else if a.proposalId != b.proposalId then StrLeq(a.proposalId, b.proposalId)
                 else StrLeq(a.actualStatus, b.actualStatus)
  {
    StrOrder(a.actualStatus, b.actualStatus);
    var x, y := [a.actualStatus], [b.actualStatus];
    assert [a.actualStatus] + [] == x && [b.actualStatus] + [] == y;
    TupleCons(a.actualStatus, b.actualStatus, [], []);
    TupleCons(a.proposalId, b.proposalId, x, y);
    TupleCons(a.profileId, b.profileId, [a.proposalId] + x, [b.proposalId] + y);
    TupleCons(a.pairId, b.pairId, [a.profileId] + ([a.proposalId] + x), [b.profileId] + ([b.proposalId] + y));
    assert [a.pairId] + ([a.profileId] + ([a.proposalId] + x))
           == [a.pairId, a.profileId, a.proposalId, a.actualStatus];
    assert [b.pairId] + ([b.profileId] + ([b.proposalId] + y))
           == [b.pairId, b.profileId, b.proposalId, b.actualStatus];
  }

  lemma {:induction false} SortedPairsAre(report: CompatibilityReport)
    ensures var pairs, rows := SortedPairs(report), if report.matrix != [] then report.matrix else report.pairs;
            (forall p :: multiset(pairs)[p] == multiset(rows)[Some(p)]) && PairsInOrder(pairs)
  {
    var rows := if report.matrix != [] then report.matrix else report.pairs;
    var pairs := SortedPairs(report);
    MappingsCount(rows);
    SortPermutes(Mappings(rows), PairLeq);
    PairOrder();
    SortSorts(Mappings(rows), PairLeq);
    forall i, j | 0 <= i < j < |pairs| ensures PairLeq(pairs[i], pairs[j]) { PairLeqIff(pairs[i], pairs[j]); }
    forall a, b ensures PairLeq(a, b)
            <==> if a.pairId != b.pairId then StrLeq(a.pairId, b.pairId)
                 else if a.profileId != b.profileId then StrLeq(a.profileId, b.profileId)
                 else if a.proposalId != b.proposalId then StrLeq(a.proposalId, b.proposalId)
                 else StrLeq(a.actualStatus, b.actualStatus)
    {
      PairLeqIff(a, b);
    }
  }

  lemma PairKeysDiffer(rt: Runtime, reportId: string, pair: Pair, decision: string)
    ensures var facts := PairFacts(rt, reportId, pair);
            Distinct(Keys(facts)) && Distinct(Keys(facts + [Member("decision", Str(decision))]))
  {
    var keys := Keys(PairFacts(rt, reportId, pair) + [Member("decision", Str(decision))]);
    assert |keys| == 8;
    assert |keys[0]| == 7 && |keys[1]| == 10 && |keys[2]| == 11 && |keys[3]| == 15;
    assert |keys[4]| == 13 && |keys[5]| == 19 && |keys[6]| == 9 && |keys[7]| == 8;
    assert Distinct(keys);
    assert Keys(PairFacts(rt, reportId, pair)) == keys[..7];
  }

  /** The type and the decision of the second event. */
  lemma TerminalTypeIs(lower: string -> string, pair: Pair)
    ensures var t := TerminalType(lower, pair);
            if lower(pair.actualStatus) != "compatible" then t == "CompatibilityRejected" && Decision(t) == "rejected"
            else if Occurs(lower(pair.pairId), "certified") || Occurs(lower(pair.profileId), "certified")
            then t == "CompatibilityCertified" && Decision(t) == "certified"
            else t == "CompatibilityAccepted" && Decision(t) == "accepted"
  {
    ContainsIff(lower(pair.pairId), "certified");
    ContainsIff(lower(pair.profileId), "certified");
    assert "CompatibilityRejected"[13] == 'R' && "CompatibilityCertified"[13] == 'C';
    assert "CompatibilityAccepted"[13] == 'A';
  }

  lemma PairItemsAre(rt: Runtime, lower: string -> string, reportId: string, pair: Pair)
    ensures var item, facts := PairItem(lower, reportId, pair), PairFacts(rt, reportId, pair);
            && NormalizeItems(rt, item.firstPayload) == facts
            && NormalizeItems(rt, item.secondPayload)
               == facts + [Member("decision", Str(Decision(TerminalType(lower, pair))))]
            && item.firstType == "CompatibilityChecked" && item.secondType == TerminalType(lower, pair)
            && CorrelationFor(item) == "pair::" + Strip(pair.pairId)
  {
    assert "pair" + "::" == "pair::";
  }

  lemma {:induction false} PairPayloadTells(rt: Runtime, lower: string -> string, reportId: string, pair: Pair,
                                            index: nat, first: Draft, second: Draft)
    requires var item := PairItem(lower, reportId, pair);
             && first == DraftOf(item.firstType, index * 2, CorrelationFor(item), item.firstPayload)
             && second == DraftOf(item.secondType, index * 2 + 1, CorrelationFor(item), item.secondPayload)
    ensures TellsPair(rt, lower, reportId, pair, index, EventOf(rt, first), EventOf(rt, second))
  {
    var facts := PairFacts(rt, reportId, pair);
    var decision := Decision(TerminalType(lower, pair));
    PairItemsAre(rt, lower, reportId, pair);
    PairKeysDiffer(rt, reportId, pair, decision);
    PayloadTells(rt, first, facts);
    PayloadTells(rt, second, facts + [Member("decision", Str(decision))]);
    PairDecided(rt, lower, reportId, pair, index, EventOf(rt, first), EventOf(rt, second));
  }

  lemma PairDecided(rt: Runtime, lower: string -> string, reportId: string, pair: Pair, index: nat,
                    checked: AuditEvent, decided: AuditEvent)
    requires var t, correlation, facts :=
               TerminalType(lower, pair), "pair::" + Strip(pair.pairId), PairFacts(rt, reportId, pair);
             && Tells(checked, "CompatibilityChecked", 2 * index, correlation, facts)
             && Tells(decided, t, 2 * index + 1, correlation, facts + [Member("decision", Str(Decision(t)))])
    ensures TellsPair(rt, lower, reportId, pair, index, checked, decided)
  {
    TerminalTypeIs(lower, pair);
  }

  /** What the last event says. */
  function ReportFacts(rt: Runtime, reportId: string, schema: string, status: string, summary: PyVal,
                       counted: string, count: int): seq<Member> {
    [Member("report_id", Str(reportId)), Member("report_schema", Str(schema)), Member("status", Str(status)),
     Member("summary", Normalize(rt, summary)), Member(counted, Int(count))]
  }

  lemma {:induction false} ReportTells(rt: Runtime, d: Draft, reportId: string, schema: string, status: string,
                                       summary: PyVal, counted: string, count: int)
    requires |counted| == 10 || |counted| == 14
    requires d.payload == [
               Entry("report_id", PStr(reportId)), Entry("report_schema", PStr(schema)), Entry("status", PStr(status)),
               Entry("summary", summary), Entry(counted, PInt(count))]
    ensures Tells(EventOf(rt, d), d.eventType, d.logicalTick, d.correlationId,
                  ReportFacts(rt, reportId, schema, status, summary, counted, count))
  {
    var facts := ReportFacts(rt, reportId, schema, status, summary, counted, count);
    var keys := Keys(facts);
    assert |keys| == 5 && |keys[0]| == 9 && |keys[1]| == 13 && |keys[2]| == 6 && |keys[3]| == 7;
    assert NormalizeItems(rt, d.payload) == facts;
    PayloadTells(rt, d, facts);
  }

  lemma {:induction false} PairTrail(rt: Runtime, lower: string -> string, reportId: string, pairs: seq<Pair>,
                                     drafts: seq<Draft>, k: nat)
    requires var items := PairItems(lower, reportId, pairs);
             ItemDrafts(items) <= drafts && k < |KeptAt(items)|
    ensures var at := KeptAt(PairItems(lower, reportId, pairs));
            && at[k] < |pairs| && 2 * k + 1 < |drafts|
            && TellsPair(rt, lower, reportId, pairs[at[k]], at[k], EventOf(rt, drafts[2 * k]),
                         EventOf(rt, drafts[2 * k + 1]))
  {
    var items := PairItems(lower, reportId, pairs);
    var at := KeptAt(items);
    ItemDraftsAre(items);
    assert PairAt(items[at[k]], at[k], ItemDrafts(items), k);
    PairPayloadTells(rt, lower, reportId, pairs[at[k]], at[k], drafts[2 * k], drafts[2 * k + 1]);
  }

  lemma {:induction false} KeptPairs(lower: string -> string, reportId: string, pairs: seq<Pair>)
    ensures var at := KeptAt(PairItems(lower, reportId, pairs));
            && Ascending(at) && |ItemDrafts(PairItems(lower, reportId, pairs))| == 2 * |at|
            && forall i: nat :: i in at <==> i < |pairs| && Strip(pairs[i].pairId) != ""
  {
    ItemDraftsAre(PairItems(lower, reportId, pairs));
  }

  /** What the events of a compatibility report say. */
  lemma {:induction false} CompatibilityTrailIs(rt: Runtime, lower: string -> string, report: CompatibilityReport,
                                                reportId: string)
    returns (pairs: seq<Pair>, at: seq<nat>)
    ensures CompatibilityTrail(rt, lower, report, reportId, EventsOf(rt, CompatibilityDrafts(lower, report, reportId)),
                               pairs, at)
  {
    pairs := SortedPairs(report);
    at := KeptAt(PairItems(lower, reportId, pairs));
    var drafts := CompatibilityDrafts(lower, report, reportId);
    SortedPairsAre(report);
    KeptPairs(lower, reportId, pairs);
    forall k | 0 <= k < |at|
      ensures at[k] < |pairs|
              && TellsPair(rt, lower, reportId, pairs[at[k]], at[k], EventOf(rt, drafts[2 * k]),
                           EventOf(rt, drafts[2 * k + 1]))
    {
      PairTrail(rt, lower, reportId, pairs, drafts, k);
    }
    ReportTells(rt, drafts[2 * |at|], reportId, report.schema, report.status, report.summary, "pair_count", |pairs|);
  }

  // ---- Expert trails ---------------------------------------------------------------

  /** The rows are sorted by id, file and decision, one after the other. */
  ghost predicate ProposalsInOrder(proposals: seq<Proposal>) {
    forall i, j :: 0 <= i < j < |proposals| ==>
      var a, b := proposals[i], proposals[j];
      if a.proposalId != b.proposalId then StrLeq(a.proposalId, b.proposalId)
      else if a.file != b.file then StrLeq(a.file, b.file)
      else StrLeq(a.decision, b.decision)
  }

  function ProposalFacts(reportId: string, p: Proposal): seq<Member> {
    [Member("proposal_id", Str(Strip(p.proposalId))), Member("decision", Str(p.decision)),
     Member("reason_code", Str(p.reasonCode)), Member("status", Str(p.status)), Member("file", Str(p.file)),
     Member("report_id", Str(reportId))]
  }

  /** The event type that stands for a decision. */
  predicate Verdict(decision: string, eventType: string) {
    || (decision == "certified" && eventType == "ProposalCertified")
    || (decision == "accepted" && eventType == "ProposalAccepted")
    || (decision == "unsafe" && eventType == "ProposalUnsafe")
    || (decision == "unsupported" && eventType == "ProposalUnsupported")
    || (decision == "missing_evidence" && eventType == "ProposalMissingEvidence")
    || (decision !in ["certified", "accepted", "unsafe", "unsupported", "missing_evidence"]
        && eventType == "ProposalRejected")
  }

  /** A proposal is first reported as evaluated, and then under its decision, whatever its case. */
  ghost predicate TellsProposal(lower: string -> string, reportId: string, p: Proposal, index: nat,
                                evaluated: AuditEvent, decided: AuditEvent)
  {
    var correlation, facts := "proposal::" + Strip(p.proposalId), ProposalFacts(reportId, p);
    && Tells(evaluated, "ProposalEvaluated", 2 * index, correlation, facts)
    && Verdict(Strip(lower(p.decision)), decided.eventType)
    && Tells(decided, decided.eventType, 2 * index + 1, correlation, facts)
  }

  /** Two events for each proposal with an id, in order, and one for the report. */
  ghost predicate ExpertTrail(rt: Runtime, lower: string -> string, report: ExpertReport, reportId: string,
                              events: seq<AuditEvent>, proposals: seq<Proposal>, at: seq<nat>)
  {
    && (forall p :: multiset(proposals)[p] == multiset(report.proposals)[Some(p)]) && ProposalsInOrder(proposals)
    && Ascending(at) && (forall i: nat :: i in at <==> i < |proposals| && Strip(proposals[i].proposalId) != "")
    && |events| == 2 * |at| + 1
    && (forall k :: 0 <= k < |at| ==>
          at[k] < |proposals|
          && TellsProposal(lower, reportId, proposals[at[k]], at[k], events[2 * k], events[2 * k + 1]))
    && Tells(events[2 * |at|], "ExpertProposalBatchReported", 2 * |at|, "report::" + Strip(reportId),
             ReportFacts(rt, reportId, report.schema, report.status, report.summary, "proposal_count", |proposals|))
  }

  lemma ProposalOrder()
    ensures TotalPreorder(ProposalLeq)
  {
    forall a, b ensures ProposalLeq(a, b) || ProposalLeq(b, a) {
      TupleOrder([a.proposalId, a.file, a.decision], [b.proposalId, b.file, b.decision]);
    }
    forall a, b, c | ProposalLeq(a, b) && ProposalLeq(b, c) ensures ProposalLeq(a, c) {
      TupleTransitive([a.proposalId, a.file, a.decision], [b.proposalId, b.file, b.decision],
                      [c.proposalId, c.file, c.decision]);
    }
  }

  lemma ProposalLeqIff(a: Proposal, b: Proposal)
    ensures ProposalLeq(a, b)
            <==> if a.proposalId != b.proposalId then StrLeq(a.proposalId, b.proposalId)
                 else if a.file != b.file then StrLeq(a.file, b.file)
                 else StrLeq(a.decision, b.decision)
  {
    StrOrder(a.decision, b.decision);
    var x, y := [a.decision], [b.decision];
    assert [a.decision] + [] == x && [b.decision] + [] == y;
    TupleCons(a.decision, b.decision, [], []);
    TupleCons(a.file, b.file, x, y);
    TupleCons(a.proposalId, b.proposalId, [a.file] + x, [b.file] + y);
    assert [a.proposalId] + ([a.file] + x) == [a.proposalId, a.file, a.decision];
    assert [b.proposalId] + ([b.file] + y) == [b.proposalId, b.file, b.decision];
  }

  lemma {:induction false} SortedProposalsAre(report: ExpertReport)
    ensures var proposals := SortedProposals(report);
            && (forall p :: multiset(proposals)[p] == multiset(report.proposals)[Some(p)])
            && ProposalsInOrder(proposals)
  {
    MappingsCount(report.proposals);
    SortPermutes(Mappings(report.proposals), ProposalLeq);
    ProposalOrder();
    SortSorts(Mappings(report.proposals), ProposalLeq);
    forall a, b ensures ProposalLeq(a, b)
            <==> if a.proposalId != b.proposalId then StrLeq(a.proposalId, b.proposalId)
                 else if a.file != b.file then StrLeq(a.file, b.file)
                 else StrLeq(a.decision, b.decision)
    {
      ProposalLeqIff(a, b);
    }
  }

  lemma ProposalItemIs(rt: Runtime, lower: string -> string, reportId: string, p: Proposal)
    ensures var item, facts := ProposalItem(lower, reportId, p), ProposalFacts(reportId, p);
            && NormalizeItems(rt, item.firstPayload) == facts && item.secondPayload == item.firstPayload
            && item.firstType == "ProposalEvaluated" && Verdict(Strip(lower(p.decision)), item.secondType)
            && CorrelationFor(item) == "proposal::" + Strip(p.proposalId)
  {
    assert "proposal" + "::" == "proposal::";
  }

  lemma ProposalKeysDiffer(reportId: string, p: Proposal)
    ensures Distinct(Keys(ProposalFacts(reportId, p)))
  {
    var keys := Keys(ProposalFacts(reportId, p));
    assert |keys| == 6 && |keys[0]| == 11 && |keys[1]| == 8 && |keys[2]| == 11 && |keys[3]| == 6;
    assert |keys[4]| == 4 && |keys[5]| == 9 && keys[0][0] == 'p' && keys[2][0] == 'r';
  }

  lemma {:induction false} ProposalTells(rt: Runtime, lower: string -> string, reportId: string, p: Proposal,
                                         index: nat, first: Draft, second: Draft)
    requires var item := ProposalItem(lower, reportId, p);
             && first == DraftOf(item.firstType, index * 2, CorrelationFor(item), item.firstPayload)
             && second == DraftOf(item.secondType, index * 2 + 1, CorrelationFor(item), item.secondPayload)
    ensures TellsProposal(lower, reportId, p, index, EventOf(rt, first), EventOf(rt, second))
  {
    ProposalItemIs(rt, lower, reportId, p);
    ProposalKeysDiffer(reportId, p);
    PayloadTells(rt, first, ProposalFacts(reportId, p));
    PayloadTells(rt, second, ProposalFacts(reportId, p));
  }

  lemma {:induction false} ProposalTrail(rt: Runtime, lower: string -> string, reportId: string,
                                         proposals: seq<Proposal>, drafts: seq<Draft>, k: nat)
    requires var items := ProposalItems(lower, reportId, proposals);
             ItemDrafts(items) <= drafts && k < |KeptAt(items)|
    ensures var at := KeptAt(ProposalItems(lower, reportId, proposals));
            && at[k] < |proposals| && 2 * k + 1 < |drafts|
            && TellsProposal(lower, reportId, proposals[at[k]], at[k], EventOf(rt, drafts[2 * k]),
                             EventOf(rt, drafts[2 * k + 1]))
  {
    var items := ProposalItems(lower, reportId, proposals);
    var at := KeptAt(items);
    ItemDraftsAre(items);
    assert PairAt(items[at[k]], at[k], ItemDrafts(items), k);
    ProposalTells(rt, lower, reportId, proposals[at[k]], at[k], drafts[2 * k], drafts[2 * k + 1]);
  }

  lemma {:induction false} KeptProposals(lower: string -> string, reportId: string, proposals: seq<Proposal>)
    ensures var at := KeptAt(ProposalItems(lower, reportId, proposals));
            && Ascending(at) && |ItemDrafts(ProposalItems(lower, reportId, proposals))| == 2 * |at|
            && forall i: nat :: i in at <==> i < |proposals| && Strip(proposals[i].proposalId) != ""
  {
    ItemDraftsAre(ProposalItems(lower, reportId, proposals));
  }

  /** What the events of an expert report say. */
  lemma {:induction false} ExpertTrailIs(rt: Runtime, lower: string -> string, report: ExpertReport, reportId: string)
    returns (proposals: seq<Proposal>, at: seq<nat>)
    ensures ExpertTrail(rt, lower, report, reportId, EventsOf(rt, ExpertDrafts(lower, report, reportId)),
                        proposals, at)
  {
    proposals := SortedProposals(report);
    at := KeptAt(ProposalItems(lower, reportId, proposals));
    var drafts := ExpertDrafts(lower, report, reportId);
    SortedProposalsAre(report);
    KeptProposals(lower, reportId, proposals);
    forall k | 0 <= k < |at|
      ensures at[k] < |proposals|
              && TellsProposal(lower, reportId, proposals[at[k]], at[k], EventOf(rt, drafts[2 * k]),
                               EventOf(rt, drafts[2 * k + 1]))
    {
      ProposalTrail(rt, lower, reportId, proposals, drafts, k);
    }
    ReportTells(rt, drafts[2 * |at|], reportId, report.schema, report.status, report.summary, "proposal_count",
                |proposals|);
  }

  // ---- Gaia surrogate evaluations --------------------------------------------------

  /** What int() or float() makes of a field: absent, a number, or an exception. */
  datatype Figure<T> = NotGiven | Given(value: T) | NotNumeric

  function OrElse<T>(f: Figure<T>, default: T): T { if f.Given? then f.value else default }

  datatype Mismatch = Mismatch(
    sourceId: string, rowIndex: Figure<int>, proposalId: string, predictedNearby: bool, actualNearby: bool,
    probability: PyVal, distancePc: PyVal)

  datatype Evaluation = Evaluation(
    runId: string, proposalId: string, proposalHash: string, weightsHash: string,
    mismatches: seq<Option<Mismatch>>, featureColumns: seq<PyVal>, decisionThreshold: Figure<string>,
    totalEvaluated: Figure<int>, correctPredictions: Figure<int>, agreementRate: Figure<string>, status: string)

  function RowKey(m: Mismatch): int { OrElse(m.rowIndex, 0) }

  /** _gaia_surrogate_sort_key.  Its third component, the source id as a number, cannot decide:
      it is compared only between equal source ids. */
  predicate MismatchLeq(a: Mismatch, b: Mismatch) {
    if RowKey(a) != RowKey(b) then RowKey(a) < RowKey(b)
    else if Strip(a.sourceId) != Strip(b.sourceId) then StrLeq(Strip(a.sourceId), Strip(b.sourceId))
    else StrLeq(a.proposalId, b.proposalId)
  }

  function RunId(e: Evaluation, fingerprint: string): string {
    if Strip(e.runId) != "" then Strip(e.runId) else fingerprint
  }

  function SortedMismatches(e: Evaluation): seq<Mismatch> {
    SortBy(Mappings(e.mismatches), MismatchLeq)
  }

  function Total(e: Evaluation, count: nat): int {
    OrElse(e.totalEvaluated, count)
  }

  function Correct(e: Evaluation, count: nat): int {
    OrElse(e.correctPredictions, if Total(e, count) - count > 0 then Total(e, count) - count else 0)
  }

  function Threshold(e: Evaluation): string { OrElse(e.decisionThreshold, "0.5") }

  function Rate(e: Evaluation): string { OrElse(e.agreementRate, "0.0") }

  /** Some figure that the derivation converts is no number. */
  predicate Unreadable(e: Evaluation, mismatches: seq<Mismatch>) {
    || e.totalEvaluated.NotNumeric? || e.correctPredictions.NotNumeric?
    || e.agreementRate.NotNumeric? || e.decisionThreshold.NotNumeric?
    || exists m :: m in mismatches && m.rowIndex.NotNumeric?
  }

  function SummaryPayload(e: Evaluation, fingerprint: string, count: nat): seq<PyItem> {
    [Entry("run_id", PStr(RunId(e, fingerprint))), Entry("proposal_id", PStr(Strip(e.proposalId))),
     Entry("proposal_hash", PStr(Strip(e.proposalHash))), Entry("evaluation_hash", PStr(fingerprint)),
     Entry("weights_hash", PStr(Strip(e.weightsHash))), Entry("feature_columns", PList(e.featureColumns)),
     Entry("decision_threshold", PFloat(Threshold(e))), Entry("total_evaluated", PInt(Total(e, count))),
     Entry("correct_predictions", PInt(Correct(e, count))), Entry("mismatch_count", PInt(count)),
     Entry("agreement_rate", PFloat(Rate(e)))]
  }

  function MismatchPayload(e: Evaluation, fingerprint: string, m: Mismatch, index: nat): seq<PyItem> {
    [Entry("run_id", PStr(RunId(e, fingerprint))), Entry("proposal_id", PStr(Strip(e.proposalId))),
     Entry("source_id", PStr(Strip(m.sourceId))),
     Entry("row_index", PInt(OrElse(m.rowIndex, index))),
     Entry("predicted_nearby", PBool(m.predictedNearby)), Entry("actual_nearby", PBool(m.actualNearby)),
     Entry("probability", m.probability), Entry("distance_pc", m.distancePc),
     Entry("decision_threshold", PFloat(Threshold(e))), Entry("evaluation_hash", PStr(fingerprint))]
  }

  function CompletionPayload(e: Evaluation, fingerprint: string, count: nat): seq<PyItem> {
    [Entry("run_id", PStr(RunId(e, fingerprint))), Entry("proposal_id", PStr(Strip(e.proposalId))),
     Entry("evaluation_hash", PStr(fingerprint)), Entry("proposal_hash", PStr(Strip(e.proposalHash))),
     Entry("weights_hash", PStr(Strip(e.weightsHash))), Entry("total_evaluated", PInt(Total(e, count))),
     Entry("mismatch_count", PInt(count)), Entry("agreement_rate", PFloat(Rate(e))),
     Entry("status", PStr(e.status))]
  }

  function MismatchPayloads(e: Evaluation, fingerprint: string, mismatches: seq<Mismatch>): seq<seq<PyItem>> {
    seq(|mismatches|, i requires 0 <= i < |mismatches| => MismatchPayload(e, fingerprint, mismatches[i], i + 1))
  }

  /** One draft per mismatch, numbered from 1. */
  function MismatchDrafts(eventType: string, correlation: string, payloads: seq<seq<PyItem>>): (r: seq<Draft>)
    ensures |r| == |payloads|
    ensures forall i :: 0 <= i < |r| ==>
              r[i] == DraftOf(eventType, i + 1, correlation, payloads[i])
  {
    seq(|payloads|, i requires 0 <= i < |payloads| =>
          DraftOf(eventType, i + 1, correlation, payloads[i]))
  }

  /** The types of the three kinds of event. */
  datatype RunTypes = RunTypes(summary: string, mismatch: string, completion: string)

  function RunDrafts(types: RunTypes, correlation: string, summary: seq<PyItem>, payloads: seq<seq<PyItem>>,
                     completion: seq<PyItem>): seq<Draft> {
    [DraftOf(types.summary, 0, correlation, summary)]
    + MismatchDrafts(types.mismatch, correlation, payloads)
    + [DraftOf(types.completion, |payloads| + 1, correlation, completion)]
  }

  function GaiaTypes(): RunTypes {
    RunTypes("GaiaSurrogateProposalEvaluated", "GaiaSurrogatePredictionMismatch", "GaiaSurrogateEvaluationCompleted")
  }

  function GaiaDrafts(e: Evaluation, fingerprint: string, correlation: string, mismatches: seq<Mismatch>): seq<Draft> {
    RunDrafts(GaiaTypes(), correlation, SummaryPayload(e, fingerprint, |mismatches|),
              MismatchPayloads(e, fingerprint, mismatches),
              CompletionPayload(e, fingerprint, |mismatches|))
  }

  datatype GaiaError = Rejected(error: Error) | FigureNotNumeric

  /** derive_gaia_surrogate_audit_events */
  method DeriveGaiaSurrogate(rt: Runtime, e: Evaluation, source: string, computed: string)
    returns (r: Result<seq<AuditEvent>, GaiaError>)
    ensures var fingerprint := if source != "" then source else computed;
            var run := RunId(e, fingerprint);
            var mismatches := SortedMismatches(e);
            r == if Strip(run) == "" then Raised(Rejected(EmptyIdentifier))
                 else if Unreadable(e, mismatches) then Raised(FigureNotNumeric)
                 else Ok(EventsOf(rt, GaiaDrafts(e, fingerprint, "gaia_pipeline::" + Strip(run), mismatches)))
    ensures var fingerprint := if source != "" then source else computed;
            r.Ok? ==> exists mismatches, total, correct, rate, threshold ::
              GaiaTrailTells(rt, e, fingerprint, r.value, mismatches, total, correct, rate, threshold)
  {
    var fingerprint := if source != "" then source else computed;
    var run := RunId(e, fingerprint);
    assert ALLOWED_NAMESPACES[7] == "gaia_pipeline" && "gaia_pipeline" + "::" == "gaia_pipeline::";
    CorrelationIdOf(7, run);
    var accepted := CorrelationId("gaia_pipeline", run);
    if accepted.Raised? { return Raised(Rejected(accepted.error)); }
    NamespaceAccepts(7, run);
    var mismatches := SortedMismatches(e);
    var n := |mismatches|;
    if e.totalEvaluated.NotNumeric? || e.correctPredictions.NotNumeric? { return Raised(FigureNotNumeric); }
    if e.agreementRate.NotNumeric? || e.decisionThreshold.NotNumeric? { return Raised(FigureNotNumeric); }
    if exists m :: m in mismatches && m.rowIndex.NotNumeric? { return Raised(FigureNotNumeric); }
    var events := RecordRun(rt, GaiaTypes(), accepted.value, SummaryPayload(e, fingerprint, n),
                            MismatchPayloads(e, fingerprint, mismatches), CompletionPayload(e, fingerprint, n));
    GaiaTrailIs(rt, e, fingerprint, mismatches, events);
    r := Ok(events);
  }

  /** Records drafts one by one. */
  method RecordAll(rt: Runtime, drafts: seq<Draft>, correlation: string) returns (events: seq<AuditEvent>)
    requires ValidateCorrelation(correlation) == Ok(correlation)
    requires forall i :: 0 <= i < |drafts| ==> Recordable(drafts[i], correlation)
    ensures events == EventsOf(rt, drafts)
  {
    events := [];
    for k := 0 to |drafts|
      invariant events == EventsOf(rt, drafts[..k])
    {
      assert drafts[..k + 1] == drafts[..k] + [drafts[k]];
      assert Recordable(drafts[k], correlation);
      events := Append(rt, drafts[..k], events, drafts[k]);
    }
    assert drafts[..|drafts|] == drafts;
  }

  /** The summary, one event per mismatch, and the completion, whose tick is the number of
      events before it. */
  method RecordRun(rt: Runtime, types: RunTypes, correlation: string, summary: seq<PyItem>,
                   payloads: seq<seq<PyItem>>, completion: seq<PyItem>)
    returns (events: seq<AuditEvent>)
    requires ValidateCorrelation(correlation) == Ok(correlation)
    ensures events == EventsOf(rt, RunDrafts(types, correlation, summary, payloads, completion))
  {
    var drafts := [DraftOf(types.summary, 0, correlation, summary)]
      + MismatchDrafts(types.mismatch, correlation, payloads);
    events := RecordAll(rt, drafts, correlation);
    events := Append(rt, drafts, events, DraftOf(types.completion, |events|, correlation, completion));
  }

  lemma RunIdsDistinct(rt: Runtime, types: RunTypes, correlation: string, summary: seq<PyItem>,
                       payloads: seq<seq<PyItem>>, completion: seq<PyItem>)
    requires CollisionFree(rt, EventsOf(rt, RunDrafts(types, correlation, summary, payloads, completion)))
    ensures DistinctIds(EventsOf(rt, RunDrafts(types, correlation, summary, payloads, completion)))
  {
    AllIdsDiffer(rt, RunDrafts(types, correlation, summary, payloads, completion));
  }

  /** The events of one evaluation carry the ticks 0, 1, 2, ... in order, so the completion
      event comes last and no two of them share an id. */
  lemma GaiaTrail(rt: Runtime, e: Evaluation, fingerprint: string, correlation: string, mismatches: seq<Mismatch>)
    requires CollisionFree(rt, EventsOf(rt, GaiaDrafts(e, fingerprint, correlation, mismatches)))
    ensures var drafts := GaiaDrafts(e, fingerprint, correlation, mismatches);
            && |drafts| == |mismatches| + 2
            && (forall k :: 0 <= k < |drafts| ==> drafts[k].logicalTick == k)
            && DistinctIds(EventsOf(rt, drafts))
  {
    var n := |mismatches|;
    var summary, completion := SummaryPayload(e, fingerprint, n), CompletionPayload(e, fingerprint, n);
    var payloads := MismatchPayloads(e, fingerprint, mismatches);
    RunIdsDistinct(rt, GaiaTypes(), correlation, summary, payloads, completion);
  }

  // ---- Gaia trails -----------------------------------------------------------------

  /** The mismatches are sorted by row, then by source, then by proposal. */
  ghost predicate MismatchesInOrder(mismatches: seq<Mismatch>) {
    forall i, j :: 0 <= i < j < |mismatches| ==>
      var a, b := mismatches[i], mismatches[j];
      var x, y := if a.rowIndex.Given? then a.rowIndex.value else 0, if b.rowIndex.Given? then b.rowIndex.value else 0;
      if x != y then x < y
      else if Strip(a.sourceId) != Strip(b.sourceId) then StrLeq(Strip(a.sourceId), Strip(b.sourceId))
      else StrLeq(a.proposalId, b.proposalId)
  }

  /** What the figures of an evaluation of n mismatches are, with those it does not give filled in. */
  ghost predicate Figures(e: Evaluation, n: nat, total: int, correct: int, rate: string, threshold: string) {
    && total == (if e.totalEvaluated.Given? then e.totalEvaluated.value else n)
    && correct == (if e.correctPredictions.Given? then e.correctPredictions.value
                   else if total > n then total - n else 0)
    && rate == (if e.agreementRate.Given? then e.agreementRate.value else "0.0")
    && threshold == (if e.decisionThreshold.Given? then e.decisionThreshold.value else "0.5")
  }

  function SummaryFacts(rt: Runtime, e: Evaluation, run: string, fingerprint: string, n: nat, total: int, correct: int,
                        rate: string, threshold: string): seq<Member>
  {
    [Member("run_id", Str(run)), Member("proposal_id", Str(Strip(e.proposalId))),
     Member("proposal_hash", Str(Strip(e.proposalHash))), Member("evaluation_hash", Str(fingerprint)),
     Member("weights_hash", Str(Strip(e.weightsHash))),
     Member("feature_columns", Normalize(rt, PList(e.featureColumns))),
     Member("decision_threshold", Float(rt.quantize(threshold))), Member("total_evaluated", Int(total)),
     Member("correct_predictions", Int(correct)), Member("mismatch_count", Int(n)),
     Member("agreement_rate", Float(rt.quantize(rate)))]
  }

  function MismatchFacts(rt: Runtime, e: Evaluation, run: string, fingerprint: string, threshold: string, m: Mismatch,
                         number: nat): seq<Member>
  {
    [Member("run_id", Str(run)), Member("proposal_id", Str(Strip(e.proposalId))),
     Member("source_id", Str(Strip(m.sourceId))),
     Member("row_index", Int(if m.rowIndex.Given? then m.rowIndex.value else number)),
     Member("predicted_nearby", Bool(m.predictedNearby)), Member("actual_nearby", Bool(m.actualNearby)),
     Member("probability", Normalize(rt, m.probability)), Member("distance_pc", Normalize(rt, m.distancePc)),
     Member("decision_threshold", Float(rt.quantize(threshold))), Member("evaluation_hash", Str(fingerprint))]
  }

  function CompletionFacts(rt: Runtime, e: Evaluation, run: string, fingerprint: string, n: nat, total: int,
                           rate: string): seq<Member>
  {
    [Member("run_id", Str(run)), Member("proposal_id", Str(Strip(e.proposalId))),
     Member("evaluation_hash", Str(fingerprint)), Member("proposal_hash", Str(Strip(e.proposalHash))),
     Member("weights_hash", Str(Strip(e.weightsHash))), Member("total_evaluated", Int(total)),
     Member("mismatch_count", Int(n)), Member("agreement_rate", Float(rt.quantize(rate))),
     Member("status", Str(e.status))]
  }

  /** A summary, one event per mismatch, and the completion, all of one run. */
  ghost predicate GaiaTrailTells(rt: Runtime, e: Evaluation, fingerprint: string, events: seq<AuditEvent>,
                                 mismatches: seq<Mismatch>, total: int, correct: int, rate: string, threshold: string)
  {
    var run := if Strip(e.runId) != "" then Strip(e.runId) else fingerprint;
    var correlation, n := "gaia_pipeline::" + Strip(run), |mismatches|;
    && (forall m :: multiset(mismatches)[m] == multiset(e.mismatches)[Some(m)]) && MismatchesInOrder(mismatches)
    && Figures(e, n, total, correct, rate, threshold) && |events| == n + 2
    && forall k :: 0 <= k < |events| ==>
         GaiaEventTells(rt, e, run, fingerprint, correlation, mismatches, k, events[k], total, correct, rate, threshold)
  }

  lemma MismatchOrder()
    ensures TotalPreorder(MismatchLeq)
  {
    forall a, b ensures MismatchLeq(a, b) || MismatchLeq(b, a) {
      StrOrder(Strip(a.sourceId), Strip(b.sourceId));
      StrOrder(a.proposalId, b.proposalId);
    }
    forall a, b, c | MismatchLeq(a, b) && MismatchLeq(b, c) ensures MismatchLeq(a, c) {
      MismatchTransitive(a, b, c);
    }
  }

  lemma MismatchTransitive(a: Mismatch, b: Mismatch, c: Mismatch)
    requires MismatchLeq(a, b) && MismatchLeq(b, c)
    ensures MismatchLeq(a, c)
  {
    var x, y, z := Strip(a.sourceId), Strip(b.sourceId), Strip(c.sourceId);
    if RowKey(a) == RowKey(b) == RowKey(c) {
      if x == y == z {
        StrTransitive(a.proposalId, b.proposalId, c.proposalId);
      } else if StrLeq(x, y) && StrLeq(y, z) {
        StrTransitive(x, y, z);
        StrOrder(x, y);
      }
    }
  }

  lemma {:induction false} SortedMismatchesAre(e: Evaluation)
    ensures var mismatches := SortedMismatches(e);
            && (forall m :: multiset(mismatches)[m] == multiset(e.mismatches)[Some(m)])
            && MismatchesInOrder(mismatches)
  {
    MappingsCount(e.mismatches);
    SortPermutes(Mappings(e.mismatches), MismatchLeq);
    MismatchOrder();
    SortSorts(Mappings(e.mismatches), MismatchLeq);
  }

  lemma SummaryKeysDiffer(facts: seq<Member>, rt: Runtime, e: Evaluation, run: string, fingerprint: string, n: nat,
                          total: int, correct: int, rate: string, threshold: string)
    requires facts == SummaryFacts(rt, e, run, fingerprint, n, total, correct, rate, threshold)
    ensures Distinct(Keys(facts))
  {
    var k := Keys(facts);
    assert |k| == 11 && |k[0]| == 6 && |k[1]| == 11 && |k[2]| == 13 && |k[3]| == 15 && |k[4]| == 12;
    assert |k[5]| == 15 && |k[6]| == 18 && |k[7]| == 15 && |k[8]| == 19 && |k[9]| == 14 && |k[10]| == 14;
    assert k[3][0] == 'e' && k[5][0] == 'f' && k[7][0] == 't' && k[9][0] == 'm' && k[10][0] == 'a';
  }

  lemma MismatchKeysDiffer(facts: seq<Member>, rt: Runtime, e: Evaluation, run: string, fingerprint: string,
                           threshold: string, m: Mismatch, number: nat)
    requires facts == MismatchFacts(rt, e, run, fingerprint, threshold, m, number)
    ensures Distinct(Keys(facts))
  {
    var k := Keys(facts);
    assert |k| == 10 && |k[0]| == 6 && |k[1]| == 11 && |k[2]| == 9 && |k[3]| == 9 && |k[4]| == 16;
    assert |k[5]| == 13 && |k[6]| == 11 && |k[7]| == 11 && |k[8]| == 18 && |k[9]| == 15;
    assert k[1][1] == 'r' && k[6][1] == 'r' && k[1][3] == 'p' && k[6][3] == 'b' && k[7][0] == 'd';
    assert k[1][0] == k[6][0] == 'p' && k[2][0] == 's' && k[3][0] == 'r';
  }

  lemma CompletionKeysDiffer(facts: seq<Member>, rt: Runtime, e: Evaluation, run: string, fingerprint: string, n: nat,
                             total: int, rate: string)
    requires facts == CompletionFacts(rt, e, run, fingerprint, n, total, rate)
    ensures Distinct(Keys(facts))
  {
    var k := Keys(facts);
    assert |k| == 9 && |k[0]| == 6 && |k[1]| == 11 && |k[2]| == 15 && |k[3]| == 13 && |k[4]| == 12;
    assert |k[5]| == 15 && |k[6]| == 14 && |k[7]| == 14 && |k[8]| == 6;
    assert k[0][0] == 'r' && k[8][0] == 's' && k[2][0] == 'e' && k[5][0] == 't' && k[6][0] == 'm' && k[7][0] == 'a';
  }

  lemma {:induction false} SummaryTells(rt: Runtime, e: Evaluation, fingerprint: string, n: nat, d: Draft)
    requires d.payload == SummaryPayload(e, fingerprint, n)
    ensures Tells(EventOf(rt, d), d.eventType, d.logicalTick, d.correlationId,
                  SummaryFacts(rt, e, RunId(e, fingerprint), fingerprint, n, Total(e, n), Correct(e, n), Rate(e),
                               Threshold(e)))
  {
    var facts := SummaryFacts(rt, e, RunId(e, fingerprint), fingerprint, n, Total(e, n), Correct(e, n), Rate(e),
                              Threshold(e));
    SummaryKeysDiffer(facts, rt, e, RunId(e, fingerprint), fingerprint, n, Total(e, n), Correct(e, n), Rate(e),
                      Threshold(e));
    assert NormalizeItems(rt, d.payload) == facts;
    PayloadTells(rt, d, facts);
  }

  lemma {:induction false} MismatchTells(rt: Runtime, e: Evaluation, fingerprint: string, m: Mismatch, number: nat,
                                         d: Draft)
    requires d.payload == MismatchPayload(e, fingerprint, m, number)
    ensures Tells(EventOf(rt, d), d.eventType, d.logicalTick, d.correlationId,
                  MismatchFacts(rt, e, RunId(e, fingerprint), fingerprint, Threshold(e), m, number))
  {
    var facts := MismatchFacts(rt, e, RunId(e, fingerprint), fingerprint, Threshold(e), m, number);
    MismatchKeysDiffer(facts, rt, e, RunId(e, fingerprint), fingerprint, Threshold(e), m, number);
    assert NormalizeItems(rt, d.payload) == facts;
    PayloadTells(rt, d, facts);
  }

  lemma {:induction false} CompletionTells(rt: Runtime, e: Evaluation, fingerprint: string, n: nat, d: Draft)
    requires d.payload == CompletionPayload(e, fingerprint, n)
    ensures Tells(EventOf(rt, d), d.eventType, d.logicalTick, d.correlationId,
                  CompletionFacts(rt, e, RunId(e, fingerprint), fingerprint, n, Total(e, n), Rate(e)))
  {
    var facts := CompletionFacts(rt, e, RunId(e, fingerprint), fingerprint, n, Total(e, n), Rate(e));
    CompletionKeysDiffer(facts, rt, e, RunId(e, fingerprint), fingerprint, n, Total(e, n), Rate(e));
    assert NormalizeItems(rt, d.payload) == facts;
    PayloadTells(rt, d, facts);
  }

  /** Draft k of a run. */
  lemma {:induction false} RunDraftAt(types: RunTypes, correlation: string, summary: seq<PyItem>,
                                      payloads: seq<seq<PyItem>>, completion: seq<PyItem>, k: nat)
    requires k < |payloads| + 2
    ensures var drafts := RunDrafts(types, correlation, summary, payloads, completion);
            && |drafts| == |payloads| + 2
            && drafts[k] == if k == 0 then DraftOf(types.summary, 0, correlation, summary)
                            else if k <= |payloads| then DraftOf(types.mismatch, k, correlation, payloads[k - 1])
                            else DraftOf(types.completion, k, correlation, completion)
  {
    if 0 < k <= |payloads| {
      assert MismatchDrafts(types.mismatch, correlation, payloads)[k - 1]
             == DraftOf(types.mismatch, k, correlation, payloads[k - 1]);
    }
  }

  /** What event k of a run says. */
  ghost predicate GaiaEventTells(rt: Runtime, e: Evaluation, run: string, fingerprint: string, correlation: string,
                                 mismatches: seq<Mismatch>, k: nat, event: AuditEvent, total: int, correct: int,
                                 rate: string, threshold: string)
  {
    var n := |mismatches|;
    if k == 0 then
      Tells(event, "GaiaSurrogateProposalEvaluated", 0, correlation,
            SummaryFacts(rt, e, run, fingerprint, n, total, correct, rate, threshold))
    else if k <= n then
      Tells(event, "GaiaSurrogatePredictionMismatch", k, correlation,
            MismatchFacts(rt, e, run, fingerprint, threshold, mismatches[k - 1], k))
    else
      Tells(event, "GaiaSurrogateEvaluationCompleted", k, correlation,
            CompletionFacts(rt, e, run, fingerprint, n, total, rate))
  }

  lemma {:induction false} GaiaEventIs(rt: Runtime, e: Evaluation, fingerprint: string, correlation: string,
                                       mismatches: seq<Mismatch>, k: nat)
    requires k < |mismatches| + 2
    ensures var drafts, n := GaiaDrafts(e, fingerprint, correlation, mismatches), |mismatches|;
            && |drafts| == n + 2
            && GaiaEventTells(rt, e, RunId(e, fingerprint), fingerprint, correlation, mismatches, k,
                              EventOf(rt, drafts[k]), Total(e, n), Correct(e, n), Rate(e), Threshold(e))
  {
    var n, drafts := |mismatches|, GaiaDrafts(e, fingerprint, correlation, mismatches);
    RunDraftAt(GaiaTypes(), correlation, SummaryPayload(e, fingerprint, n),
               MismatchPayloads(e, fingerprint, mismatches), CompletionPayload(e, fingerprint, n), k);
    if k == 0 {
      SummaryTells(rt, e, fingerprint, n, drafts[0]);
    } else if k <= n {
      MismatchTells(rt, e, fingerprint, mismatches[k - 1], k, drafts[k]);
    } else {
      CompletionTells(rt, e, fingerprint, n, drafts[k]);
    }
  }

  /** What the events of an evaluation say. */
  lemma {:induction false} GaiaTrailIs(rt: Runtime, e: Evaluation, fingerprint: string, mismatches: seq<Mismatch>,
                                       events: seq<AuditEvent>)
    requires mismatches == SortedMismatches(e)
    requires events == EventsOf(rt, GaiaDrafts(e, fingerprint, "gaia_pipeline::" + Strip(RunId(e, fingerprint)),
                                               mismatches))
    ensures GaiaTrailTells(rt, e, fingerprint, events, mismatches, Total(e, |mismatches|), Correct(e, |mismatches|),
                           Rate(e), Threshold(e))
  {
    var run, n := RunId(e, fingerprint), |mismatches|;
    var correlation := "gaia_pipeline::" + Strip(run);
    SortedMismatchesAre(e);
    GaiaEventIs(rt, e, fingerprint, correlation, mismatches, 0);
    forall k | 0 <= k < |events|
      ensures GaiaEventTells(rt, e, run, fingerprint, correlation, mismatches, k, events[k], Total(e, n),
                             Correct(e, n), Rate(e), Threshold(e))
    {
      GaiaEventIs(rt, e, fingerprint, correlation, mismatches, k);
    }
  }
}
