/** scripts/expert_router_common.py: validation of a routing fixture and the selection made
    from it, with the audit record that core_runtime/core/audit_event.py derives. */
module ExpertRouter {
  import opened Results
  import opened Ordering
  import opened PyText

  // ---- Fixtures --------------------------------------------------------------------

  /** A field that should be a string; otherwise only its str() matters. */
  datatype Field = Text(text: string) | NotText(text: string)

  datatype Flag = Flag(value: bool) | NotBoolean

  datatype Number = Whole(value: int) | NotInteger

  datatype Entry = NotObject | Entry(expertId: Field, proposalId: Field, eligible: Flag, priority: Number)

  /** proposals is None when it is not a list. */
  datatype Fixture = Fixture(schema: string, routingId: Field, profileId: Field, proposals: Option<seq<Entry>>)

  const FIXTURE_SCHEMA := "core.expert_router_fixture.v1"

  datatype Error =
    | SchemaMismatch | RoutingIdMissing | ProfileIdMissing | ProposalsRequired
    | ProposalMustBeObject(index: nat) | ExpertIdMissing(index: nat) | ProposalIdMissing(index: nat)
    | DuplicateProposal(index: nat) | EligibleMustBeBoolean(index: nat) | PriorityMustBeInteger(index: nat)

  /** The pair of stripped ids by which proposals are told apart. */
  datatype Key = Key(expert: string, proposal: string)

  /** None for an entry that is not an object. */
  function KeyOf(e: Entry): Option<Key> {
    if e.Entry? then Some(Key(Strip(e.expertId.text), Strip(e.proposalId.text))) else None
  }

  predicate Present(f: Field) { f.Text? && Strip(f.text) != "" }

  predicate EntryOk(e: Entry) {
    e.Entry? && Present(e.expertId) && Present(e.proposalId) && e.eligible.Flag? && e.priority.Whole?
  }

  ghost predicate NoneRepeats<T(!new)>(keys: seq<Option<T>>) {
    forall i, j :: 0 <= i < j < |keys| && keys[i].Some? ==> keys[i] != keys[j]
  }

  ghost predicate Accepted(entries: seq<Entry>) {
    (forall i :: 0 <= i < |entries| ==> EntryOk(entries[i])) && NoneRepeats(MapSeq(entries, KeyOf))
  }

  /** What a fixture must be to be routed. */
  ghost predicate FixtureOk(f: Fixture) {
    && f.schema == FIXTURE_SCHEMA && Present(f.routingId) && Present(f.profileId)
    && f.proposals.Some? && f.proposals.value != []
    && Accepted(f.proposals.value)
  }

  // ---- What each error means -------------------------------------------------------

  predicate IdFault(entry: Entry, i: nat, taken: bool, e: Error)
    requires entry.Entry?
  {
    match e
    case ExpertIdMissing(k) => k == i && !Present(entry.expertId)
    case ProposalIdMissing(k) => k == i && !Present(entry.proposalId)
    case DuplicateProposal(k) => k == i && taken
    case _ => false
  }

  predicate FieldFault(entry: Entry, i: nat, e: Error)
    requires entry.Entry?
  {
    match e
    case EligibleMustBeBoolean(k) => k == i && !entry.eligible.Flag?
    case PriorityMustBeInteger(k) => k == i && !entry.priority.Whole?
    case _ => false
  }

  /** What is wrong with the proposal at position i, given whether its key is taken. */
  predicate EntryFault(entry: Entry, i: nat, taken: bool, e: Error) {
    if entry.NotObject? then e == ProposalMustBeObject(i)
    else IdFault(entry, i, taken, e) || FieldFault(entry, i, e)
  }

  /** An earlier proposal has the stripped ids of proposal i. */
  ghost predicate Taken(entries: seq<Entry>, i: nat)
    requires i < |entries|
  {
    KeyOf(entries[i]).Some? && exists j :: 0 <= j < i && KeyOf(entries[j]) == KeyOf(entries[i])
  }

  ghost predicate FaultAt(entries: seq<Entry>, i: nat, e: Error)
    requires i < |entries|
  {
    EntryFault(entries[i], i, Taken(entries, i), e)
  }

  ghost predicate ProposalFault(entries: seq<Entry>, e: Error) {
    exists i :: 0 <= i < |entries| && FaultAt(entries, i, e)
  }

  /** Why a fixture is not routed. */
  ghost predicate FixtureFault(f: Fixture, e: Error) {
    || (e == SchemaMismatch && f.schema != FIXTURE_SCHEMA)
    || (e == RoutingIdMissing && !Present(f.routingId))
    || (e == ProfileIdMissing && !Present(f.profileId))
    || (if f.proposals.None? || f.proposals.value == [] then e == ProposalsRequired
        else ProposalFault(f.proposals.value, e))
  }

  // ---- validate_payload ------------------------------------------------------------

  method ValidatePayload(f: Fixture) returns (errors: seq<Error>)
    ensures errors == [] <==> FixtureOk(f)
    ensures forall e :: e in errors <==> FixtureFault(f, e)
    ensures errors == [] <==> FixtureSays(f)
    ensures forall e :: e in errors <==> FixtureCauses(f, e)
  {
    FixtureOkIff(f);
    forall e ensures FixtureFault(f, e) <==> FixtureCauses(f, e) { FixtureFaultIff(f, e); }
    errors := [];
    if f.schema != FIXTURE_SCHEMA { errors := errors + [SchemaMismatch]; }
    if !Present(f.routingId) { errors := errors + [RoutingIdMissing]; }
    if !Present(f.profileId) { errors := errors + [ProfileIdMissing]; }
    if f.proposals.None? || f.proposals.value == [] {
      errors := errors + [ProposalsRequired];
      return;
    }
    var more := ValidateProposals(f.proposals.value);
    errors := errors + more;
  }

  method CheckIds(entry: Entry, index: nat, seen: set<Key>) returns (errors: seq<Error>)
    requires entry.Entry?
    ensures errors == [] <==> Present(entry.expertId) && Present(entry.proposalId) && KeyOf(entry).value !in seen
    ensures forall e :: e in errors <==> IdFault(entry, index, KeyOf(entry).value in seen, e)
  {
    errors := [];
    if !Present(entry.expertId) { errors := errors + [ExpertIdMissing(index)]; }
    if !Present(entry.proposalId) { errors := errors + [ProposalIdMissing(index)]; }
    if KeyOf(entry).value in seen { errors := errors + [DuplicateProposal(index)]; }
  }

  method CheckFields(entry: Entry, index: nat) returns (errors: seq<Error>)
    requires entry.Entry?
    ensures errors == [] <==> entry.eligible.Flag? && entry.priority.Whole?
    ensures forall e :: e in errors <==> FieldFault(entry, index, e)
  {
    errors := [];
    if !entry.eligible.Flag? { errors := errors + [EligibleMustBeBoolean(index)]; }
    if !entry.priority.Whole? { errors := errors + [PriorityMustBeInteger(index)]; }
  }

  /** The errors of one proposal. */
  method ValidateProposal(entry: Entry, index: nat, seen: set<Key>) returns (errors: seq<Error>)
    ensures errors == [] <==> EntryOk(entry) && KeyOf(entry).value !in seen
    ensures forall e :: e in errors <==> EntryFault(entry, index, entry.Entry? && KeyOf(entry).value in seen, e)
  {
    if entry.NotObject? { return [ProposalMustBeObject(index)]; }
    errors := CheckIds(entry, index, seen);
    var more := CheckFields(entry, index);
    errors := errors + more;
  }

  /** Acceptance as the loop decides it, one proposal after another. */
  ghost predicate AcceptedInTurn(entries: seq<Entry>) {
    entries == [] ||
    var prior, last := entries[..|entries| - 1], entries[|entries| - 1];
    AcceptedInTurn(prior) && EntryOk(last) && KeyOf(last).value !in SeenKeys(prior)
  }

  function SeenKeys(entries: seq<Entry>): set<Key> {
    if entries == [] then {}
    else
      var key := KeyOf(entries[|entries| - 1]);
      SeenKeys(entries[..|entries| - 1]) + if key.Some? then {key.value} else {}
  }

  /** The loop over the proposals, with the set of keys seen so far. */
  method ValidateProposals(entries: seq<Entry>) returns (errors: seq<Error>)
    ensures errors == [] <==> Accepted(entries)
    ensures forall e :: e in errors <==> ProposalFault(entries, e)
  {
    errors := [];
    var seen: set<Key> := {};
    for index := 0 to |entries|
      invariant seen == SeenKeys(entries[..index])
      invariant errors == [] <==> AcceptedInTurn(entries[..index])
      invariant forall e :: e in errors <==> exists i :: 0 <= i < index && FaultAt(entries, i, e)
    {
      var entry := entries[index];
      assert entries[..index + 1][..index] == entries[..index];
      var more := ValidateProposal(entry, index, seen);
      SeenIsTaken(entries, index);
      ghost var before := errors;
      var key := KeyOf(entry);
      if key.Some? { seen := seen + {key.value}; }
      errors := errors + more;
      assert forall e :: e in errors <==> e in before || FaultAt(entries, index, e);
    }
    assert entries[..|entries|] == entries;
    InTurnIffAccepted(entries);
  }

  lemma {:induction false} SeenKeysAre(entries: seq<Entry>, k: Option<Key>)
    requires k.Some?
    ensures k.value in SeenKeys(entries) <==> k in MapSeq(entries, KeyOf)
  {
    if entries != [] {
      var prior, last := entries[..|entries| - 1], entries[|entries| - 1];
      SeenKeysAre(prior, k);
      assert entries == prior + [last];
      MapAppends(prior, [last], KeyOf);
      assert MapSeq([last], KeyOf) == [KeyOf(last)];
    }
  }

  lemma SeenIsTaken(entries: seq<Entry>, i: nat)
    requires i < |entries|
    ensures entries[i].Entry? ==> (KeyOf(entries[i]).value in SeenKeys(entries[..i]) <==> Taken(entries, i))
  {
    var key, prior := KeyOf(entries[i]), entries[..i];
    if key.Some? {
      SeenKeysAre(prior, key);
      if key in MapSeq(prior, KeyOf) {
        var j := IndexOf(MapSeq(prior, KeyOf), key);
        assert KeyOf(entries[j]) == key;
      }
      if Taken(entries, i) {
        var j :| 0 <= j < i && KeyOf(entries[j]) == key;
        assert MapSeq(prior, KeyOf)[j] == key;
      }
    }
  }

  lemma {:induction false} InTurnIffAccepted(entries: seq<Entry>)
    ensures AcceptedInTurn(entries) <==> Accepted(entries)
  {
    if entries != [] {
      var prior, last := entries[..|entries| - 1], entries[|entries| - 1];
      InTurnIffAccepted(prior);
      AcceptedSnoc(prior, last);
      assert entries == prior + [last];
      if EntryOk(last) { SeenKeysAre(prior, KeyOf(last)); }
    }
  }

  lemma AcceptedSnoc(entries: seq<Entry>, e: Entry)
    ensures MapSeq(entries + [e], KeyOf) == MapSeq(entries, KeyOf) + [KeyOf(e)]
    ensures Accepted(entries + [e]) <==>
              Accepted(entries) && EntryOk(e) && !(KeyOf(e).Some? && KeyOf(e) in MapSeq(entries, KeyOf))
  {
    MapAppends(entries, [e], KeyOf);
    assert MapSeq([e], KeyOf) == [KeyOf(e)];
    NoneRepeatsSnoc(MapSeq(entries, KeyOf), KeyOf(e));
    var all := entries + [e];
    if Accepted(all) {
      forall i | 0 <= i < |entries| ensures EntryOk(entries[i]) { assert EntryOk(all[i]); }
      assert EntryOk(all[|entries|]);
    }
  }

  lemma NoneRepeatsSnoc<T(!new)>(keys: seq<Option<T>>, k: Option<T>)
    ensures NoneRepeats(keys + [k]) <==> NoneRepeats(keys) && !(k.Some? && k in keys)
  {
    var all := keys + [k];
    if NoneRepeats(all) {
      forall i, j | 0 <= i < j < |keys| && keys[i].Some? ensures keys[i] != keys[j] { assert all[i] != all[j]; }
      forall i | 0 <= i < |keys| && keys[i].Some? ensures keys[i] != k { assert all[i] != all[|keys|]; }
    }
  }

  // ---- Selection -------------------------------------------------------------------

  /** A proposal of an accepted fixture. */
  datatype Proposal = Proposal(expertId: string, proposalId: string, eligible: bool, priority: int)

  function Typed(e: Entry): Proposal
    requires EntryOk(e)
  {
    Proposal(e.expertId.text, e.proposalId.text, e.eligible.value, e.priority.value)
  }

  function TypedAll(entries: seq<Entry>): (r: seq<Proposal>)
    requires forall i :: 0 <= i < |entries| ==> EntryOk(entries[i])
  {
    seq(|entries|, i requires 0 <= i < |entries| => Typed(entries[i]))
  }

  /** key=lambda item: (-item["priority"], item["expert_id"], item["proposal_id"]) */
  predicate ProposalLeq(a: Proposal, b: Proposal) {
    if a.priority != b.priority then a.priority > b.priority
    else if a.expertId != b.expertId then StrLeq(a.expertId, b.expertId)
    else StrLeq(a.proposalId, b.proposalId)
  }

  lemma ProposalOrder()
    ensures TotalPreorder(ProposalLeq)
    ensures forall a, b :: ProposalLeq(a, b) && ProposalLeq(b, a) ==>
              a.expertId == b.expertId && a.proposalId == b.proposalId
  {
    forall a, b
      ensures ProposalLeq(a, b) || ProposalLeq(b, a)
      ensures ProposalLeq(a, b) && ProposalLeq(b, a) ==> a.expertId == b.expertId && a.proposalId == b.proposalId
    {
      StrOrder(a.expertId, b.expertId);
      StrOrder(a.proposalId, b.proposalId);
    }
    forall a, b, c | ProposalLeq(a, b) && ProposalLeq(b, c) ensures ProposalLeq(a, c) { ProposalTransitive(a, b, c); }
  }

  lemma ProposalTransitive(a: Proposal, b: Proposal, c: Proposal)
    requires ProposalLeq(a, b) && ProposalLeq(b, c)
    ensures ProposalLeq(a, c)
  {
    if a.priority == b.priority == c.priority {
      if a.expertId == b.expertId == c.expertId {
        StrTransitive(a.proposalId, b.proposalId, c.proposalId);
      } else if StrLeq(a.expertId, b.expertId) && StrLeq(b.expertId, c.expertId) {
        StrTransitive(a.expertId, b.expertId, c.expertId);
        StrOrder(a.expertId, b.expertId);
      }
    }
  }

  datatype Choice = Choice(expertId: string, proposalId: string, reason: string)

  const SELECTED_REASON := "eligible_by_fixture_policy"
  const REJECTED_REASON := "ineligible_by_fixture_policy"

  predicate Eligible(p: Proposal) { p.eligible }

  predicate Ineligible(p: Proposal) { !p.eligible }

  function Choices(proposals: seq<Proposal>, reason: string): seq<Choice> {
    seq(|proposals|, i requires 0 <= i < |proposals| => Choice(proposals[i].expertId, proposals[i].proposalId, reason))
  }

  datatype Evaluation = Evaluation(
    passed: bool,
    routingId: string,
    profileId: string,
    selected: seq<Choice>,
    rejected: seq<Choice>,
    reasonCodes: seq<Error>,
    selectedCount: int,
    rejectedCount: int,
    totalProposals: int)

  /** evaluate_fixture, given the errors of the validation. */
  function Evaluate(f: Fixture, errors: seq<Error>): Evaluation
    requires errors == [] ==> FixtureOk(f)
  {
    if errors != [] then Evaluation(false, f.routingId.text, f.profileId.text, [], [], errors, 0, 0, 0)
    else
      var proposals := SortBy(TypedAll(f.proposals.value), ProposalLeq);
      var selected := Choices(Filter(proposals, Eligible), SELECTED_REASON);
      var rejected := Choices(Filter(proposals, Ineligible), REJECTED_REASON);
      Evaluation(true, f.routingId.text, f.profileId.text, selected, rejected, [], |selected|, |rejected|, |proposals|)
  }

  function EntryFor(p: Proposal): Entry {
    Entry(Text(p.expertId), Text(p.proposalId), Flag(p.eligible), Whole(p.priority))
  }

  lemma TypedIff(e: Entry, p: Proposal)
    requires EntryOk(e)
    ensures Typed(e) == p <==> e == EntryFor(p)
  {
  }

  lemma {:induction false} TypedNext(entries: seq<Entry>, m: nat)
    requires |entries| == m + 1 && forall i :: 0 <= i < |entries| ==> EntryOk(entries[i])
    ensures forall i :: 0 <= i < m ==> EntryOk(entries[..m][i])
    ensures EntryOk(entries[m]) && TypedAll(entries) == TypedAll(entries[..m]) + [Typed(entries[m])]
  {
  }

  /** The proposals are the entries, as often as these occur. */
  lemma {:induction false} TypedCount(entries: seq<Entry>, p: Proposal)
    requires forall i :: 0 <= i < |entries| ==> EntryOk(entries[i])
    ensures multiset(TypedAll(entries))[p]
            == multiset(entries)[Entry(Text(p.expertId), Text(p.proposalId), Flag(p.eligible), Whole(p.priority))]
  {
    if entries != [] {
      var m := |entries| - 1;
      TypedNext(entries, m);
      TypedCount(entries[..m], p);
      TypedIff(entries[m], p);
      assert entries == entries[..m] + [entries[m]];
      CountNext(entries[..m], entries[m], EntryFor(p));
      CountNext(TypedAll(entries[..m]), Typed(entries[m]), p);
    }
  }

  lemma CountNext<T>(xs: seq<T>, x: T, y: T)
    ensures multiset(xs + [x])[y] == multiset(xs)[y] + if x == y then 1 else 0
  {
  }

  /** Higher priorities come first, and proposals of one priority are sorted by their ids. */
  ghost predicate ByPriority(proposals: seq<Proposal>) {
    forall i, j :: 0 <= i < j < |proposals| ==>
      var a, b := proposals[i], proposals[j];
      && a.priority >= b.priority
      && (a.priority == b.priority ==>
            if a.expertId != b.expertId then StrLeq(a.expertId, b.expertId) else StrLeq(a.proposalId, b.proposalId))
  }

  lemma {:induction false} SortedByPriority(proposals: seq<Proposal>)
    requires SortedBy(proposals, ProposalLeq)
    ensures ByPriority(proposals)
  {
    forall i, j | 0 <= i < j < |proposals| ensures ProposalLeq(proposals[i], proposals[j]) {}
  }

  /** The choices come from a partition of the proposals: every proposal is selected or
      rejected, by its flag, exactly once, each list in order of priority and ids; and the
      counts are those of the lists. */
  lemma SelectionPartitions(f: Fixture) returns (chosen: seq<Proposal>, refused: seq<Proposal>)
    requires FixtureOk(f)
    ensures var e := Evaluate(f, []);
            && e.selected == Choices(chosen, SELECTED_REASON) && e.rejected == Choices(refused, REJECTED_REASON)
            && (forall k :: 0 <= k < |chosen| ==>
                  e.selected[k] == Choice(chosen[k].expertId, chosen[k].proposalId, "eligible_by_fixture_policy"))
            && (forall k :: 0 <= k < |refused| ==>
                  e.rejected[k] == Choice(refused[k].expertId, refused[k].proposalId, "ineligible_by_fixture_policy"))
            && multiset(chosen) + multiset(refused) == multiset(TypedAll(f.proposals.value))
            && (forall p :: p in chosen ==> p.eligible) && (forall p :: p in refused ==> !p.eligible)
            && SortedBy(chosen, ProposalLeq) && SortedBy(refused, ProposalLeq)
            && ByPriority(chosen) && ByPriority(refused)
            && e.selectedCount == |e.selected| && e.rejectedCount == |e.rejected|
            && e.selectedCount + e.rejectedCount == e.totalProposals == |f.proposals.value|
  {
    var all := TypedAll(f.proposals.value);
    var proposals := SortBy(all, ProposalLeq);
    ProposalOrder();
    SortSorts(all, ProposalLeq);
    SortPermutes(all, ProposalLeq);
    FilterSorted(proposals, Eligible, ProposalLeq);
    FilterSorted(proposals, Ineligible, ProposalLeq);
    FilterPartitions(proposals, Eligible, Ineligible);
    chosen, refused := Filter(proposals, Eligible), Filter(proposals, Ineligible);
    SortedByPriority(chosen);
    SortedByPriority(refused);
    ChoicesAre(chosen, SELECTED_REASON);
    ChoicesAre(refused, REJECTED_REASON);
  }

  lemma ChoicesAre(proposals: seq<Proposal>, reason: string)
    ensures |Choices(proposals, reason)| == |proposals|
    ensures forall k :: 0 <= k < |proposals| ==>
              Choices(proposals, reason)[k] == Choice(proposals[k].expertId, proposals[k].proposalId, reason)
  {
  }

  /** Proposals of an accepted fixture that the sort key cannot tell apart are the same. */
  lemma KeySeparates(f: Fixture)
    requires FixtureOk(f)
    ensures Separates(ProposalLeq, TypedAll(f.proposals.value))
    ensures Distinct(TypedAll(f.proposals.value))
  {
    var entries, all := f.proposals.value, TypedAll(f.proposals.value);
    ProposalOrder();
    forall i, j | 0 <= i < |all| && 0 <= j < |all| && i != j
      ensures !(all[i].expertId == all[j].expertId && all[i].proposalId == all[j].proposalId)
    {
      var keys := MapSeq(entries, KeyOf);
      assert keys[if i < j then i else j] != keys[if i < j then j else i];
    }
  }

  /** The order in which a fixture lists its proposals is irrelevant: a permuted fixture is
      accepted as well and gives the same lists. */
  lemma ProposalOrderIsIrrelevant(f: Fixture, g: Fixture)
    requires FixtureOk(f)
    requires g == f.(proposals := g.proposals) && g.proposals.Some?
    requires multiset(g.proposals.value) == multiset(f.proposals.value)
    ensures FixtureOk(g) && Evaluate(g, []) == Evaluate(f, [])
  {
    PermutedFixture(f.proposals.value, g.proposals.value);
    KeySeparates(f);
    ProposalOrder();
    SortForgetsOrder(TypedAll(f.proposals.value), TypedAll(g.proposals.value), ProposalLeq);
  }

  lemma PermutedFixture(a: seq<Entry>, b: seq<Entry>)
    requires multiset(b) == multiset(a)
    requires (forall k :: 0 <= k < |a| ==> EntryOk(a[k])) && NoneRepeats(MapSeq(a, KeyOf))
    ensures |b| == |a| && (forall k :: 0 <= k < |b| ==> EntryOk(b[k])) && NoneRepeats(MapSeq(b, KeyOf))
    ensures multiset(TypedAll(b)) == multiset(TypedAll(a))
  {
    assert |b| == |multiset(b)| == |a|;
    forall i | 0 <= i < |b| ensures EntryOk(b[i]) {
      assert b[i] in multiset(a);
      var k := IndexOf(a, b[i]);
    }
    MapPermutes(a, b, KeyOf);
    forall i | 0 <= i < |a| ensures MapSeq(a, KeyOf)[i].Some? { assert EntryOk(a[i]); }
    DistinctPermutes(MapSeq(a, KeyOf), MapSeq(b, KeyOf));
    var t := (e: Entry) => if EntryOk(e) then Typed(e) else Proposal("", "", false, 0);
    MapPermutes(a, b, t);
    assert MapSeq(a, t) == TypedAll(a) && MapSeq(b, t) == TypedAll(b);
  }

  // ---- The audit record of an evaluation -------------------------------------------

  datatype Record = Record(decision: string, expertId: string, proposalId: string, reason: string)

  /** The payload of the RouterEligibilityEvaluated event. */
  datatype RoutingEvent = RoutingEvent(
    routingId: string,
    profileId: string,
    selectedCount: int,
    rejectedCount: int,
    totalProposals: int,
    selectedExpertIds: seq<string>,
    rejectedExpertIds: seq<string>,
    selectedExperts: seq<Record>,
    rejectedExperts: seq<Record>)

  /** Both ids of the choice are more than white space. */
  predicate Named(c: Choice) { Strip(c.expertId) != "" && Strip(c.proposalId) != "" }

  predicate HasExpert(c: Choice) { Strip(c.expertId) != "" }

  function RecordOf(c: Choice, decision: string): Record {
    Record(decision, Strip(c.expertId), Strip(c.proposalId), Strip(c.reason))
  }

  /** One record per choice whose stripped ids are not blank. */
  function Records(choices: seq<Choice>, decision: string): seq<Record> {
    MapSeq(Filter(choices, Named), (c: Choice) => RecordOf(c, decision))
  }

  function ExpertIds(choices: seq<Choice>): seq<string> {
    MapSeq(Filter(choices, HasExpert), (c: Choice) => Strip(c.expertId))
  }

  /** _router_evaluation_audit_events; fallback is the source fingerprint or "router". */
  function AuditRecord(e: Evaluation, fallback: string): RoutingEvent {
    RoutingEvent(if Strip(e.routingId) != "" then Strip(e.routingId) else fallback, Strip(e.profileId),
                 e.selectedCount, e.rejectedCount, e.totalProposals,
                 ExpertIds(e.selected), ExpertIds(e.rejected),
                 Records(e.selected, "selected"), Records(e.rejected, "rejected"))
  }

  lemma RecordsKeepAll(choices: seq<Choice>, decision: string)
    requires forall i :: 0 <= i < |choices| ==> Named(choices[i])
    ensures Lists(ExpertIds(choices), Records(choices, decision), choices, decision)
  {
    FilterKeepsAll(choices, Named);
    FilterKeepsAll(choices, HasExpert);
  }

  lemma ChoicesNamed(f: Fixture, chosen: seq<Proposal>, reason: string)
    requires FixtureOk(f) && forall p :: p in chosen ==> p in multiset(TypedAll(f.proposals.value))
    ensures forall i :: 0 <= i < |chosen| ==> Named(Choices(chosen, reason)[i])
  {
    forall i | 0 <= i < |chosen| ensures Named(Choices(chosen, reason)[i]) {
      assert chosen[i] in chosen;
    }
  }

  /** What the lists of an event say about the lists of an evaluation. */
  ghost predicate Lists(ids: seq<string>, records: seq<Record>, choices: seq<Choice>, decision: string) {
    && |ids| == |records| == |choices|
    && forall i :: 0 <= i < |choices| ==>
         var c := choices[i];
         && ids[i] == Strip(c.expertId)
         && records[i] == Record(decision, Strip(c.expertId), Strip(c.proposalId), Strip(c.reason))
  }

  /** The audit event of an accepted fixture drops no choice: one record for each selected and
      each rejected expert, in order, and the counts it reports are those of its lists. */
  lemma AuditRecordIsComplete(f: Fixture, fallback: string)
    requires FixtureOk(f)
    ensures var e := Evaluate(f, []);
            var r := AuditRecord(e, fallback);
            && Lists(r.selectedExpertIds, r.selectedExperts, e.selected, "selected")
            && Lists(r.rejectedExpertIds, r.rejectedExperts, e.rejected, "rejected")
            && r.selectedCount == |r.selectedExperts| && r.rejectedCount == |r.rejectedExperts|
            && r.totalProposals == |r.selectedExperts| + |r.rejectedExperts| == |f.proposals.value|
            && r.routingId == Strip(f.routingId.text) && r.profileId == Strip(f.profileId.text)
  {
    var e := Evaluate(f, []);
    var chosen, refused := SelectionPartitions(f);
    var all := multiset(TypedAll(f.proposals.value));
    forall p | p in chosen ensures p in all { assert p in multiset(chosen); }
    forall p | p in refused ensures p in all { assert p in multiset(refused); }
    ChoicesNamed(f, chosen, SELECTED_REASON);
    ChoicesNamed(f, refused, REJECTED_REASON);
    RecordsKeepAll(e.selected, "selected");
    RecordsKeepAll(e.rejected, "rejected");
  }

  // ---- Acceptance, errors and routing, read off the fixture ------------------------

  predicate Filled(f: Field) { f.Text? && Strip(f.text) != "" }

  /** Both are objects, and their stripped ids are the same. */
  predicate SameIds(a: Entry, b: Entry) {
    && a.Entry? && b.Entry? && Strip(a.expertId.text) == Strip(b.expertId.text)
    && Strip(a.proposalId.text) == Strip(b.proposalId.text)
  }

  /** A fixture that can be routed, without reference to how it is checked. */
  ghost predicate FixtureSays(f: Fixture) {
    && f.schema == "core.expert_router_fixture.v1" && Filled(f.routingId) && Filled(f.profileId)
    && f.proposals.Some? && f.proposals.value != []
    && (forall e :: e in f.proposals.value ==>
          e.Entry? && Filled(e.expertId) && Filled(e.proposalId) && e.eligible.Flag? && e.priority.Whole?)
    && forall i, j :: 0 <= i < j < |f.proposals.value| ==> !SameIds(f.proposals.value[i], f.proposals.value[j])
  }

  /** What each error says about a proposal. */
  ghost predicate ProposalCauses(entries: seq<Entry>, e: Error) {
    match e
    case ProposalMustBeObject(k) => k < |entries| && entries[k].NotObject?
    case ExpertIdMissing(k) => k < |entries| && entries[k].Entry? && !Filled(entries[k].expertId)
    case ProposalIdMissing(k) => k < |entries| && entries[k].Entry? && !Filled(entries[k].proposalId)
    case DuplicateProposal(k) => k < |entries| && exists j :: 0 <= j < k && SameIds(entries[j], entries[k])
    case EligibleMustBeBoolean(k) => k < |entries| && entries[k].Entry? && entries[k].eligible == NotBoolean
    case PriorityMustBeInteger(k) => k < |entries| && entries[k].Entry? && entries[k].priority == NotInteger
    case _ => false
  }

  /** What each error says about the fixture. */
  ghost predicate FixtureCauses(f: Fixture, e: Error) {
    || (e == SchemaMismatch && f.schema != "core.expert_router_fixture.v1")
    || (e == RoutingIdMissing && !Filled(f.routingId)) || (e == ProfileIdMissing && !Filled(f.profileId))
    || (e == ProposalsRequired && f.proposals in [None, Some([])])
    || (f.proposals.Some? && ProposalCauses(f.proposals.value, e))
  }

  lemma SameKeyIff(a: Entry, b: Entry)
    ensures KeyOf(a).Some? && KeyOf(b) == KeyOf(a) <==> SameIds(a, b)
  {
  }

  lemma TakenIff(entries: seq<Entry>, i: nat)
    requires i < |entries|
    ensures Taken(entries, i) <==> exists j :: 0 <= j < i && SameIds(entries[j], entries[i])
  {
    if j :| 0 <= j < i && SameIds(entries[j], entries[i]) { SameKeyIff(entries[i], entries[j]); }
    if Taken(entries, i) {
      var j :| 0 <= j < i && KeyOf(entries[j]) == KeyOf(entries[i]);
      SameKeyIff(entries[i], entries[j]);
      assert SameIds(entries[j], entries[i]);
    }
  }

  function IndexOfError(e: Error): Option<nat> {
    match e
    case ProposalMustBeObject(k) => Some(k)
    case ExpertIdMissing(k) => Some(k)
    case ProposalIdMissing(k) => Some(k)
    case DuplicateProposal(k) => Some(k)
    case EligibleMustBeBoolean(k) => Some(k)
    case PriorityMustBeInteger(k) => Some(k)
    case _ => None
  }

  lemma FaultHasIndex(entries: seq<Entry>, e: Error)
    ensures ProposalFault(entries, e)
            <==> var k := IndexOfError(e); k.Some? && k.value < |entries| && FaultAt(entries, k.value, e)
  {
  }

  lemma ProposalFaultIff(entries: seq<Entry>, e: Error)
    ensures ProposalFault(entries, e) <==> ProposalCauses(entries, e)
  {
    FaultHasIndex(entries, e);
    var k := IndexOfError(e);
    if k.Some? && k.value < |entries| { TakenIff(entries, k.value); }
  }

  /** Every error is reported exactly for what it says. */
  lemma FixtureFaultIff(f: Fixture, e: Error)
    ensures FixtureFault(f, e) <==> FixtureCauses(f, e)
  {
    if f.proposals.Some? { ProposalFaultIff(f.proposals.value, e); }
  }

  /** Exactly the fixtures that say so can be routed. */
  lemma FixtureOkIff(f: Fixture)
    ensures FixtureOk(f) <==> FixtureSays(f)
  {
    if f.proposals.Some? {
      var entries := f.proposals.value;
      forall i, j | 0 <= i < j < |entries|
        ensures KeyOf(entries[i]).Some? && KeyOf(entries[j]) == KeyOf(entries[i]) <==> SameIds(entries[i], entries[j])
      {
        SameKeyIff(entries[i], entries[j]);
      }
      assert NoneRepeats(MapSeq(entries, KeyOf))
             <==> forall i, j :: 0 <= i < j < |entries| ==> !SameIds(entries[i], entries[j]);
    }
  }
}
