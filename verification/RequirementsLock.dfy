/** scripts/generate_requirements_lock.py: the closure of the seed packages under the
    requirements of what is installed. */
module RequirementsLock {
  import opened Ordering

  /** applies: the environment marker is absent or evaluates to true. */
  datatype Requirement = Requirement(name: string, applies: bool)

  datatype Distribution = Distribution(version: string, requirements: seq<Requirement>)

  /** The installed packages, by normalised name; canon is canonicalize_name.  Looking a
      package up under any spelling of its name finds it. */
  datatype Site = Site(canon: string -> string, installed: map<string, Distribution>)

  datatype Entry = Entry(name: string, version: string)

  const EXCLUDE_PREFIXES := ["cuda-", "nvidia-"]

  predicate IsExcluded(name: string) {
    exists i :: 0 <= i < |EXCLUDE_PREFIXES| && EXCLUDE_PREFIXES[i] <= name
  }

  // ---- What belongs in the lock ----------------------------------------------------

  /** Installed under this normalised name, and not excluded. */
  predicate Lockable(site: Site, n: string) {
    n in site.installed && !IsExcluded(n)
  }

  /** An applicable requirement of package n names package m. */
  ghost predicate Needs(site: Site, n: string, m: string) {
    n in site.installed
    && exists k :: 0 <= k < |site.installed[n].requirements| && NeedsAt(site, n, k, m)
  }

  predicate NeedsAt(site: Site, n: string, k: nat, m: string)
    requires n in site.installed && k < |site.installed[n].requirements|
  {
    var r := site.installed[n].requirements[k];
    r.applies && site.canon(r.name) == m
  }

  ghost predicate Seeded(site: Site, seeds: seq<string>, n: string) {
    exists i :: 0 <= i < |seeds| && site.canon(seeds[i]) == n
  }

  /** A chain of lockable packages from a seed, each required by the one before. */
  ghost predicate Chain(site: Site, seeds: seq<string>, p: seq<string>) {
    && p != [] && Seeded(site, seeds, p[0])
    && (forall i :: 0 <= i < |p| ==> Lockable(site, p[i]))
    && forall i :: 0 <= i < |p| - 1 ==> Needs(site, p[i], p[i + 1])
  }

  ghost predicate Reachable(site: Site, seeds: seq<string>, n: string) {
    exists p :: Chain(site, seeds, p) && p[|p| - 1] == n
  }

  function Version(site: Site, n: string): string {
    if n in site.installed then site.installed[n].version else ""
  }

  /** The lock: every reachable package once, with its version, by increasing name. */
  ghost predicate IsLock(site: Site, seeds: seq<string>, lock: seq<Entry>) {
    && (forall e :: e in lock <==> Reachable(site, seeds, e.name) && e.version == Version(site, e.name))
    && forall i, j :: 0 <= i < j < |lock| ==> StrLeq(lock[i].name, lock[j].name) && lock[i].name != lock[j].name
  }

  /** sorted() on pairs. */
  predicate EntryLeq(a: Entry, b: Entry) {
    if a.name == b.name then StrLeq(a.version, b.version) else StrLeq(a.name, b.name)
  }

  lemma EntryOrder()
    ensures TotalPreorder(EntryLeq)
    ensures forall a, b :: EntryLeq(a, b) && EntryLeq(b, a) ==> a == b
  {
    StrTotal();
    forall a, b ensures EntryLeq(a, b) || EntryLeq(b, a) {
      assert StrLeq(a.name, b.name) || StrLeq(b.name, a.name);
      assert StrLeq(a.version, b.version) || StrLeq(b.version, a.version);
    }
    forall a, b, c | EntryLeq(a, b) && EntryLeq(b, c) ensures EntryLeq(a, c) {
      if a.name == b.name == c.name { StrTransitive(a.version, b.version, c.version); }
      else if a.name != b.name && b.name != c.name { StrTransitive(a.name, b.name, c.name); }
    }
  }

  // ---- build_lock_entries ----------------------------------------------------------

  /** Asked for by a seed or by a reachable package. */
  ghost predicate Demanded(site: Site, seeds: seq<string>, n: string) {
    Seeded(site, seeds, n) || exists m :: Reachable(site, seeds, m) && Needs(site, m, n)
  }

  lemma DemandedReachable(site: Site, seeds: seq<string>, n: string)
    requires Demanded(site, seeds, n) && Lockable(site, n)
    ensures Reachable(site, seeds, n)
  {
    if Seeded(site, seeds, n) {
      assert Chain(site, seeds, [n]);
    } else {
      var m :| Reachable(site, seeds, m) && Needs(site, m, n);
      var p :| Chain(site, seeds, p) && p[|p| - 1] == m;
      var q := p + [n];
      forall i | 0 <= i < |q| - 1 ensures Needs(site, q[i], q[i + 1]) {
        if i < |p| - 1 { assert Needs(site, p[i], p[i + 1]); }
      }
      assert Chain(site, seeds, q);
    }
  }

  /** Nothing more will come of n: it is resolved, it cannot be, or it is queued. */
  ghost predicate Handled(site: Site, seen: set<string>, queue: seq<string>, n: string) {
    n in seen || !Lockable(site, n) || exists i :: 0 <= i < |queue| && site.canon(queue[i]) == n
  }

  ghost predicate Requested(site: Site, seeds: seq<string>, queue: seq<string>) {
    forall i :: 0 <= i < |queue| ==> Demanded(site, seeds, site.canon(queue[i]))
  }

  ghost predicate Covered(site: Site, seeds: seq<string>, seen: set<string>, queue: seq<string>) {
    && (forall n :: Seeded(site, seeds, n) ==> Handled(site, seen, queue, n))
    && forall n, m :: n in seen && Needs(site, n, m) ==> Handled(site, seen, queue, m)
  }

  ghost predicate Resolved(site: Site, seeds: seq<string>, seen: set<string>, resolved: seq<Entry>) {
    && (forall n :: n in seen ==> Lockable(site, n) && Reachable(site, seeds, n))
    && (forall e :: e in resolved <==> e.name in seen && e.version == Version(site, e.name))
    && forall i, j :: 0 <= i < j < |resolved| ==> resolved[i].name != resolved[j].name
  }

  /** An entry that leaves the queue without being added needed no further handling. */
  lemma CoveredPop(site: Site, seeds: seq<string>, seen: set<string>, queue: seq<string>)
    requires queue != [] && Covered(site, seeds, seen, queue)
    requires site.canon(queue[0]) in seen || !Lockable(site, site.canon(queue[0]))
    ensures Covered(site, seeds, seen, queue[1..])
  {
    forall n | Handled(site, seen, queue, n) ensures Handled(site, seen, queue[1..], n) {
      if n !in seen && Lockable(site, n) {
        var i :| 0 <= i < |queue| && site.canon(queue[i]) == n;
        assert queue[1..][i - 1] == queue[i];
      }
    }
  }

  /** The names that the applicable, not excluded requirements of n add to the queue. */
  method EnqueueRequirements(site: Site, ghost seeds: seq<string>, n: string, queue0: seq<string>)
    returns (queue: seq<string>)
    requires n in site.installed && Reachable(site, seeds, n) && Requested(site, seeds, queue0)
    ensures queue0 <= queue && Requested(site, seeds, queue)
    ensures forall m :: Needs(site, n, m) ==> Handled(site, {}, queue, m)
  {
    queue := queue0;
    var requirements := site.installed[n].requirements;
    for k := 0 to |requirements|
      invariant queue0 <= queue && Requested(site, seeds, queue)
      invariant forall j, m :: 0 <= j < k && NeedsAt(site, n, j, m) ==> Handled(site, {}, queue, m)
    {
      var req := requirements[k];
      if !req.applies { continue; }
      var name := site.canon(req.name);
      if IsExcluded(name) { continue; }
      assert NeedsAt(site, n, k, name);
      ghost var before := queue;
      queue := queue + [req.name];
      assert queue[|before|] == req.name;
      forall m | Handled(site, {}, before, m) ensures Handled(site, {}, queue, m) {
        if Lockable(site, m) {
          var i :| 0 <= i < |before| && site.canon(before[i]) == m;
          assert queue[i] == before[i];
        }
      }
    }
  }

  lemma CoveredAdd(site: Site, seeds: seq<string>, seen: set<string>, queue: seq<string>, longer: seq<string>)
    requires queue != [] && Covered(site, seeds, seen, queue)
    requires queue[1..] <= longer
    requires forall m :: Needs(site, site.canon(queue[0]), m) ==> Handled(site, {}, longer, m)
    ensures Covered(site, seeds, seen + {site.canon(queue[0])}, longer)
  {
    var n := site.canon(queue[0]);
    forall m | Handled(site, seen, queue, m) ensures Handled(site, seen + {n}, longer, m) {
      if m !in seen + {n} && Lockable(site, m) {
        var i :| 0 <= i < |queue| && site.canon(queue[i]) == m;
        assert longer[i - 1] == queue[i];
      }
    }
  }

  /** With an empty queue, everything reachable has been resolved. */
  lemma {:induction false} ClosureComplete(site: Site, seeds: seq<string>, seen: set<string>, p: seq<string>)
    requires Covered(site, seeds, seen, []) && Chain(site, seeds, p)
    ensures p[|p| - 1] in seen
  {
    if |p| > 1 {
      var q := p[..|p| - 1];
      forall i | 0 <= i < |q| - 1 ensures Needs(site, q[i], q[i + 1]) {
        assert Needs(site, p[i], p[i + 1]);
      }
      ClosureComplete(site, seeds, seen, q);
      assert Needs(site, p[|p| - 2], p[|p| - 1]);
    }
    assert Handled(site, seen, [], p[|p| - 1]);
  }

  /** The worklist may hold a name many times and requirements may be cyclic; each round
      either resolves another installed package or shortens the queue. */
  method BuildLockEntries(site: Site, seeds: seq<string>) returns (lock: seq<Entry>)
    ensures IsLock(site, seeds, lock) && LockSays(site, seeds, lock)
  {
    var seen: set<string> := {};
    var resolved: seq<Entry> := [];
    var queue := seeds;
    while queue != []
      invariant Resolved(site, seeds, seen, resolved)
      invariant Requested(site, seeds, queue) && Covered(site, seeds, seen, queue)
      decreases site.installed.Keys - seen, |queue|
    {
      var name := queue[0];
      var norm := site.canon(name);
      if norm in seen || IsExcluded(norm) || norm !in site.installed {
        CoveredPop(site, seeds, seen, queue);
        queue := queue[1..];
        continue;
      }
      DemandedReachable(site, seeds, norm);
      var dist := site.installed[norm];
      var longer := EnqueueRequirements(site, seeds, norm, queue[1..]);
      CoveredAdd(site, seeds, seen, queue, longer);
      seen, queue := seen + {norm}, longer;
      resolved := resolved + [Entry(norm, dist.version)];
    }
    lock := SortBy(resolved, EntryLeq);
    SortedLock(site, seeds, seen, resolved);
  }

  lemma {:induction false} SortedLock(site: Site, seeds: seq<string>, seen: set<string>, resolved: seq<Entry>)
    requires Resolved(site, seeds, seen, resolved) && Covered(site, seeds, seen, [])
    ensures IsLock(site, seeds, SortBy(resolved, EntryLeq)) && LockSays(site, seeds, SortBy(resolved, EntryLeq))
  {
    var lock := SortBy(resolved, EntryLeq);
    EntryOrder();
    SortSorts(resolved, EntryLeq);
    SortMembers(resolved, EntryLeq);
    forall n | Reachable(site, seeds, n) ensures n in seen {
      var p :| Chain(site, seeds, p) && p[|p| - 1] == n;
      ClosureComplete(site, seeds, seen, p);
    }
    SortKeepsDistinct(resolved, EntryLeq);
    forall i, j | 0 <= i < j < |lock|
      ensures StrLeq(lock[i].name, lock[j].name) && lock[i].name != lock[j].name
    {
      assert lock[i] in resolved && lock[j] in resolved;
      assert lock[i] != lock[j];
      StrOrder(lock[i].name, lock[j].name);
    }
    LockIff(site, seeds, lock);
  }

  // ---- The lock does not depend on any order ---------------------------------------

  lemma LockUnique(site: Site, seeds: seq<string>, a: seq<Entry>, b: seq<Entry>)
    requires IsLock(site, seeds, a) && IsLock(site, seeds, b)
    ensures a == b
  {
    EntryOrder();
    SortedSetUnique(a, b, EntryLeq);
  }

  /** Two sites with the same versions whose requirement lists and seeds name the same
      packages, in any order, with any repetition and under any spelling. */
  ghost predicate SameDemands(s: Site, seeds: seq<string>, t: Site, others: seq<string>) {
    && s.installed.Keys == t.installed.Keys
    && (forall n :: Version(s, n) == Version(t, n))
    && (forall n :: Seeded(s, seeds, n) <==> Seeded(t, others, n))
    && forall n, m :: Needs(s, n, m) <==> Needs(t, n, m)
  }

  lemma OrderIsIrrelevant(s: Site, seeds: seq<string>, t: Site, others: seq<string>, a: seq<Entry>, b: seq<Entry>)
    requires SameDemands(s, seeds, t, others)
    requires IsLock(s, seeds, a) && IsLock(t, others, b)
    ensures a == b
  {
    forall p ensures Chain(s, seeds, p) <==> Chain(t, others, p) {
      assert forall i :: 0 <= i < |p| ==> (Lockable(s, p[i]) <==> Lockable(t, p[i]));
    }
    forall n ensures Reachable(s, seeds, n) <==> Reachable(t, others, n) {
      if Reachable(s, seeds, n) {
        var p :| Chain(s, seeds, p) && p[|p| - 1] == n;
        assert Chain(t, others, p);
      }
      if Reachable(t, others, n) {
        var p :| Chain(t, others, p) && p[|p| - 1] == n;
        assert Chain(s, seeds, p);
      }
    }
    LockUnique(s, seeds, a, b);
  }

  // ---- The lock, read off the site -------------------------------------------------

  predicate FromVendor(name: string) { "cuda-" <= name || "nvidia-" <= name }

  /** Packages to lock, the first named by a seed, each named by an applicable requirement of the one
      before. */
  ghost predicate LeadsTo(site: Site, seeds: seq<string>, p: seq<string>) {
    && p != [] && (exists seed :: seed in seeds && site.canon(seed) == p[0])
    && (forall i :: 0 <= i < |p| ==> p[i] in site.installed && !FromVendor(p[i]))
    && forall i :: 0 <= i < |p| - 1 ==> Requires(site, p[i], p[i + 1])
  }

  /** An installed package has an applicable requirement for m. */
  ghost predicate Requires(site: Site, n: string, m: string) {
    && n in site.installed
    && exists r :: r in site.installed[n].requirements && r.applies && site.canon(r.name) == m
  }

  /** The lock lists the packages that a chain leads to, with their versions and by increasing name. */
  ghost predicate LockSays(site: Site, seeds: seq<string>, lock: seq<Entry>) {
    && (forall e :: e in lock <==>
          && e.name in site.installed && e.version == site.installed[e.name].version
          && exists p :: LeadsTo(site, seeds, p) && p[|p| - 1] == e.name)
    && forall i, j :: 0 <= i < j < |lock| ==> StrLeq(lock[i].name, lock[j].name) && lock[i].name != lock[j].name
  }

  lemma NeedsIff(site: Site, n: string, m: string)
    ensures Needs(site, n, m) <==> Requires(site, n, m)
  {
    if Needs(site, n, m) {
      var k :| 0 <= k < |site.installed[n].requirements| && NeedsAt(site, n, k, m);
      assert site.installed[n].requirements[k] in site.installed[n].requirements;
    }
    if Requires(site, n, m) {
      var r :| r in site.installed[n].requirements && r.applies && site.canon(r.name) == m;
      var k := IndexOf(site.installed[n].requirements, r);
      assert NeedsAt(site, n, k, m);
    }
  }

  lemma ExcludedIff(name: string)
    ensures IsExcluded(name) <==> FromVendor(name)
  {
    assert EXCLUDE_PREFIXES[0] == "cuda-" && EXCLUDE_PREFIXES[1] == "nvidia-";
  }

  lemma SeededIff(site: Site, seeds: seq<string>, n: string)
    ensures Seeded(site, seeds, n) <==> exists seed :: seed in seeds && site.canon(seed) == n
  {
    if Seeded(site, seeds, n) {
      var i :| 0 <= i < |seeds| && site.canon(seeds[i]) == n;
      assert seeds[i] in seeds;
    }
  }

  lemma ChainIff(site: Site, seeds: seq<string>, p: seq<string>)
    ensures Chain(site, seeds, p) <==> LeadsTo(site, seeds, p)
  {
    if p != [] {
      SeededIff(site, seeds, p[0]);
      forall i | 0 <= i < |p| ensures IsExcluded(p[i]) <==> FromVendor(p[i]) { ExcludedIff(p[i]); }
      forall i | 0 <= i < |p| - 1 ensures Needs(site, p[i], p[i + 1]) <==> Requires(site, p[i], p[i + 1]) {
        NeedsIff(site, p[i], p[i + 1]);
      }
    }
  }

  /** The lock is what the site and the seeds say. */
  lemma LockIff(site: Site, seeds: seq<string>, lock: seq<Entry>)
    ensures IsLock(site, seeds, lock) <==> LockSays(site, seeds, lock)
  {
    forall p ensures Chain(site, seeds, p) <==> LeadsTo(site, seeds, p) { ChainIff(site, seeds, p); }
    forall e: Entry
      ensures Reachable(site, seeds, e.name) && e.version == Version(site, e.name)
              <==> && e.name in site.installed && e.version == site.installed[e.name].version
                   && exists p :: LeadsTo(site, seeds, p) && p[|p| - 1] == e.name
    {
    }
  }
}
