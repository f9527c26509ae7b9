/** The per-profile clause walk of the visibility check (process_depset):
    given a dependency set already reduced to clauses, find the first
    clause none of whose atoms resolves under the profile, memoising
    resolved atoms in the profile's `cache` and failed ones in its
    `insoluble` set. */
module Depset {
  import opened Atoms

  /** The shared query cache: atom to the variants the repository
      matcher returned for it (an empty sequence is the "no match"
      marker). */
  type QueryCache = map<Atom, seq<Pkg>>

  /** the variants the query cache holds for `a`, none when absent */
  function Known(qc: QueryCache, a: Atom): seq<Pkg> {
    if a in qc then qc[a] else []
  }

  predicate Distinct(s: seq<Atom>) {
    forall i, j :: 0 <= i < j < |s| ==> s[i] != s[j]
  }

  /** some atom of the clause is in the profile's satisfied cache */
  predicate Cached(c: Clause, cache: set<Atom>) {
    exists i :: 0 <= i < |c| && c[i] in cache
  }

  /** Outcome of scanning one clause. `probes` lists, in order, the atoms
      whose resolution was looked up in the virtuals index, the query
      cache or the visibility filter. `ScanMissing` is the KeyError the
      source raises when a non-virtual atom is absent from the query
      cache. */
  datatype ScanOutcome =
    | Scanned(accepted: bool, cache: set<Atom>, insoluble: set<Atom>, probes: seq<Atom>)
    | ScanMissing(atom: Atom)

  /** Outcome of a whole dependency set: the atoms of the failing clause
      (empty when none failed) and the updated profile memo, or the
      atom whose query-cache lookup raised. */
  datatype DepsetOutcome =
    | Done(bad: set<Atom>, cache: set<Atom>, insoluble: set<Atom>, probes: seq<Atom>)
    | KeyMissing(atom: Atom)

  function PrependProbe(a: Atom, o: ScanOutcome): ScanOutcome {
    match o
    case Scanned(ok, c, i, p) => Scanned(ok, c, i, [a] + p)
    case ScanMissing(_) => o
  }

  function PrependProbes(p: seq<Atom>, o: DepsetOutcome): DepsetOutcome {
    match o
    case Done(b, c, i, q) => Done(b, c, i, p + q)
    case KeyMissing(_) => o
  }

  /** Scans a clause's atoms in order and stops at the first accepted
      one: atoms already insoluble are skipped unexamined; an atom the
      virtuals index matches, or one with a query-cache variant the
      filter accepts, is accepted and cached; a virtual-category atom the
      query cache has never seen, or one without an accepted variant, is
      marked insoluble. */
  function ScanClause(c: Clause, virtuals: Atom -> bool, vfilter: Pkg -> bool, qc: QueryCache,
                      cache: set<Atom>, insoluble: set<Atom>): (r: ScanOutcome)
    requires AtomSet(c) !! cache
    ensures r.Scanned? ==> cache <= r.cache && insoluble <= r.insoluble
    ensures r.Scanned? && !r.accepted ==> r.cache == cache && AtomSet(c) <= r.insoluble
    ensures r.Scanned? && r.accepted ==> exists a :: a in c && r.cache == cache + {a}
    ensures r.Scanned? ==> forall a :: a in r.cache && a !in cache ==> Provides(virtuals, vfilter, Known(qc, a), a)
    ensures r.Scanned? ==> forall a :: a in r.insoluble && a !in insoluble ==> !Provides(virtuals, vfilter, Known(qc, a), a)
    ensures r.Scanned? ==> (set a | a in r.probes) == (r.cache - cache) + (r.insoluble - insoluble)
    ensures r.Scanned? ==> Distinct(r.probes) && forall a :: a in r.probes ==> a in c && a !in insoluble
    ensures r.ScanMissing? ==>
              r.atom in c && r.atom !in qc && !IsVirtual(r.atom) && !virtuals(r.atom) && r.atom !in insoluble
    decreases |c|
  {
    if c == [] then Scanned(false, cache, insoluble, [])
    else
      var a := c[0];
      assert AtomSet(c[1..]) <= AtomSet(c);
      if a in insoluble then ScanClause(c[1..], virtuals, vfilter, qc, cache, insoluble)
      else if virtuals(a) then Scanned(true, cache + {a}, insoluble, [a])
      else if IsVirtual(a) && a !in qc then
        PrependProbe(a, ScanClause(c[1..], virtuals, vfilter, qc, cache, insoluble + {a}))
      else if a !in qc then ScanMissing(a)
      else if AnyAccepted(qc[a], vfilter) then Scanned(true, cache + {a}, insoluble, [a])
      else PrependProbe(a, ScanClause(c[1..], virtuals, vfilter, qc, cache, insoluble + {a}))
  }

  /** The memo moved from (`cache`, `insoluble`) to (`cache2`,
      `insoluble2`) honestly: both only grew, newly cached atoms resolve
      and newly insoluble ones do not, and `probes` lists each newly
      memoised atom exactly once. */
  predicate Progress(virtuals: Atom -> bool, vfilter: Pkg -> bool, qc: QueryCache, cache: set<Atom>, insoluble: set<Atom>,
                     cache2: set<Atom>, insoluble2: set<Atom>, probes: seq<Atom>) {
    && cache <= cache2 && insoluble <= insoluble2
    && (forall a :: a in cache2 && a !in cache ==> Provides(virtuals, vfilter, Known(qc, a), a))
    && (forall a :: a in insoluble2 && a !in insoluble ==> !Provides(virtuals, vfilter, Known(qc, a), a))
    && (set a | a in probes) == (cache2 - cache) + (insoluble2 - insoluble)
    && Distinct(probes)
    && (forall a :: a in probes ==> a !in cache && a !in insoluble)
  }

  lemma ProgressTrans(virtuals: Atom -> bool, vfilter: Pkg -> bool, qc: QueryCache,
                      c0: set<Atom>, i0: set<Atom>, c1: set<Atom>, i1: set<Atom>, p: seq<Atom>,
                      c2: set<Atom>, i2: set<Atom>, q: seq<Atom>)
    requires Progress(virtuals, vfilter, qc, c0, i0, c1, i1, p)
    requires Progress(virtuals, vfilter, qc, c1, i1, c2, i2, q)
    ensures Progress(virtuals, vfilter, qc, c0, i0, c2, i2, p + q)
  {
    assert forall a :: a in p ==> a in (set x | x in p);
    assert forall a :: a in q ==> a in (set x | x in q);
    DistinctAppend(p, q, (c1 - c0) + (i1 - i0));
    assert (set a | a in p + q) == (set a | a in p) + (set a | a in q);
  }

  /** process_depset: clauses holding a blocker, or an atom already in the
      profile's cache, are skipped; the first clause whose scan accepts
      no atom ends the walk and its atoms are the result; when every
      clause passes the result is empty. */
  function ProcessDepset(clauses: seq<Clause>, virtuals: Atom -> bool, vfilter: Pkg -> bool,
                         cache: set<Atom>, insoluble: set<Atom>, qc: QueryCache): (r: DepsetOutcome)
    ensures r.Done? ==> Progress(virtuals, vfilter, qc, cache, insoluble, r.cache, r.insoluble, r.probes)
    ensures r.Done? && r.bad != {} ==>
              exists k :: 0 <= k < |clauses| && r.bad == AtomSet(clauses[k]) && !HasBlocker(clauses[k])
    ensures r.Done? ==> r.bad <= r.insoluble && r.bad !! r.cache
    ensures r.KeyMissing? ==>
              r.atom !in qc && !IsVirtual(r.atom) && !virtuals(r.atom)
              && exists k :: 0 <= k < |clauses| && r.atom in clauses[k]
    decreases |clauses|
  {
    if clauses == [] then Done({}, cache, insoluble, [])
    else
      var c := clauses[0];
      if HasBlocker(c) || Cached(c, cache) then
        var rest := ProcessDepset(clauses[1..], virtuals, vfilter, cache, insoluble, qc);
        ShiftClauses(clauses, rest);
        rest
      else
        match ScanClause(c, virtuals, vfilter, qc, cache, insoluble)
        case ScanMissing(a) => KeyMissing(a)
        case Scanned(ok, cache', insoluble', p) =>
          if ok then
            var rest := ProcessDepset(clauses[1..], virtuals, vfilter, cache', insoluble', qc);
            ShiftClauses(clauses, rest);
            if rest.KeyMissing? then rest
            else
              ProgressTrans(virtuals, vfilter, qc, cache, insoluble, cache', insoluble', p,
                            rest.cache, rest.insoluble, rest.probes);
              PrependProbes(p, rest)
          else
            assert forall a :: a in p ==> a in c;
            Done(AtomSet(c), cache', insoluble', p)
  }

  /** what the walk of the later clauses says about them holds of the
      whole list */
  lemma ShiftClauses(clauses: seq<Clause>, rest: DepsetOutcome)
    requires clauses != []
    requires rest.Done? && rest.bad != {} ==>
               exists k :: 0 <= k < |clauses[1..]| && rest.bad == AtomSet(clauses[1..][k]) && !HasBlocker(clauses[1..][k])
    requires rest.KeyMissing? ==> exists k :: 0 <= k < |clauses[1..]| && rest.atom in clauses[1..][k]
    ensures rest.Done? && rest.bad != {} ==>
              exists k :: 0 <= k < |clauses| && rest.bad == AtomSet(clauses[k]) && !HasBlocker(clauses[k])
    ensures rest.KeyMissing? ==> exists k :: 0 <= k < |clauses| && rest.atom in clauses[k]
  {
    if rest.Done? && rest.bad != {} {
      var k :| 0 <= k < |clauses[1..]| && rest.bad == AtomSet(clauses[1..][k]) && !HasBlocker(clauses[1..][k]);
      assert clauses[1..][k] == clauses[k + 1];
    }
    if rest.KeyMissing? {
      var k :| 0 <= k < |clauses[1..]| && rest.atom in clauses[1..][k];
      assert clauses[1..][k] == clauses[k + 1];
    }
  }

  lemma DistinctAppend(p: seq<Atom>, q: seq<Atom>, s: set<Atom>)
    requires Distinct(p) && Distinct(q)
    requires forall a :: a in p ==> a in s
    requires forall a :: a in q ==> a !in s
    ensures Distinct(p + q)
  {
    forall i, j | 0 <= i < j < |p + q|
      ensures (p + q)[i] != (p + q)[j]
    {
      if j >= |p| && i < |p| {
        assert (p + q)[i] in p && (p + q)[j] in q;
      }
    }
  }

  /* Reference semantics, free of memoisation. `matches` is the
     repository matcher, or any function the query cache agrees with. */

  /** some atom of the clause resolves under the profile */
  predicate Satisfied(c: Clause, virtuals: Atom -> bool, vfilter: Pkg -> bool, matches: Atom -> seq<Pkg>) {
    exists i :: 0 <= i < |c| && Provides(virtuals, vfilter, matches(c[i]), c[i])
  }

  /** the clause counts against the profile: no blocker and no atom resolves */
  predicate Fails(c: Clause, virtuals: Atom -> bool, vfilter: Pkg -> bool, matches: Atom -> seq<Pkg>) {
    !HasBlocker(c) && !Satisfied(c, virtuals, vfilter, matches)
  }

  /** the atoms of the first failing clause, none if no clause fails */
  function FirstFailure(clauses: seq<Clause>, virtuals: Atom -> bool, vfilter: Pkg -> bool,
                        matches: Atom -> seq<Pkg>): set<Atom>
    decreases |clauses|
  {
    if clauses == [] then {}
    else if Fails(clauses[0], virtuals, vfilter, matches) then AtomSet(clauses[0])
    else FirstFailure(clauses[1..], virtuals, vfilter, matches)
  }

  /** The profile memo tells the truth about `matches`: cached atoms
      resolve, insoluble ones do not. */
  predicate Consistent(cache: set<Atom>, insoluble: set<Atom>, virtuals: Atom -> bool, vfilter: Pkg -> bool,
                       matches: Atom -> seq<Pkg>) {
    && (forall a :: a in cache ==> Provides(virtuals, vfilter, matches(a), a))
    && (forall a :: a in insoluble ==> !Provides(virtuals, vfilter, matches(a), a))
  }

  /** The query cache agrees with `matches` on `a`: it holds exactly the
      matched variants, or `a` is a virtual without any match. */
  predicate CacheAgrees(qc: QueryCache, matches: Atom -> seq<Pkg>, a: Atom) {
    if a in qc then qc[a] == matches(a) else IsVirtual(a) && matches(a) == []
  }

  /** the query cache agrees with `matches` on every atom of every clause
      that is not skipped for holding a blocker */
  predicate AgreesOn(clauses: seq<Clause>, qc: QueryCache, matches: Atom -> seq<Pkg>) {
    forall k, j :: 0 <= k < |clauses| && 0 <= j < |clauses[k]| && !HasBlocker(clauses[k]) ==>
      CacheAgrees(qc, matches, clauses[k][j])
  }

  lemma {:induction false} ScanClauseAgrees(c: Clause, virtuals: Atom -> bool, vfilter: Pkg -> bool, qc: QueryCache,
                                            cache: set<Atom>, insoluble: set<Atom>, matches: Atom -> seq<Pkg>)
    requires AtomSet(c) !! cache
    requires Consistent(cache, insoluble, virtuals, vfilter, matches)
    requires forall j :: 0 <= j < |c| ==> CacheAgrees(qc, matches, c[j])
    ensures var r := ScanClause(c, virtuals, vfilter, qc, cache, insoluble);
            && r.Scanned?
            && r.accepted == Satisfied(c, virtuals, vfilter, matches)
            && Consistent(r.cache, r.insoluble, virtuals, vfilter, matches)
    decreases |c|
  {
    if c != [] {
      var a := c[0];
      assert Known(qc, a) == matches(a);
      assert AtomSet(c[1..]) <= AtomSet(c);
      assert forall j :: 0 <= j < |c[1..]| ==> c[1..][j] == c[j + 1];
      var ins := if a in insoluble || virtuals(a) then insoluble else insoluble + {a};
      if !virtuals(a) && !(a in qc && AnyAccepted(qc[a], vfilter)) {
        ScanClauseAgrees(c[1..], virtuals, vfilter, qc, cache, ins, matches);
        var rest := ScanClause(c[1..], virtuals, vfilter, qc, cache, ins);
        if rest.accepted {
          var i :| 0 <= i < |c[1..]| && Provides(virtuals, vfilter, matches(c[1..][i]), c[1..][i]);
          assert Provides(virtuals, vfilter, matches(c[i + 1]), c[i + 1]);
        }
      } else {
        assert Provides(virtuals, vfilter, matches(c[0]), c[0]);
      }
    }
  }

  /** Memoisation is sound: from a memo that tells the truth, and a query
      cache that agrees with the matcher on the atoms involved, the walk
      succeeds, reports exactly the reference first failing clause, and
      leaves a memo that still tells the truth. */
  lemma {:induction false} ProcessDepsetAgrees(clauses: seq<Clause>, virtuals: Atom -> bool, vfilter: Pkg -> bool,
                                               cache: set<Atom>, insoluble: set<Atom>, qc: QueryCache,
                                               matches: Atom -> seq<Pkg>)
    requires Consistent(cache, insoluble, virtuals, vfilter, matches)
    requires AgreesOn(clauses, qc, matches)
    ensures var r := ProcessDepset(clauses, virtuals, vfilter, cache, insoluble, qc);
            && r.Done?
            && r.bad == FirstFailure(clauses, virtuals, vfilter, matches)
            && Consistent(r.cache, r.insoluble, virtuals, vfilter, matches)
    decreases |clauses|
  {
    if clauses != [] {
      var c := clauses[0];
      assert AgreesOn(clauses[1..], qc, matches) by {
        forall k, j | 0 <= k < |clauses[1..]| && 0 <= j < |clauses[1..][k]| && !HasBlocker(clauses[1..][k])
          ensures CacheAgrees(qc, matches, clauses[1..][k][j])
        {
          assert clauses[1..][k] == clauses[k + 1];
        }
      }
      if HasBlocker(c) {
        ProcessDepsetAgrees(clauses[1..], virtuals, vfilter, cache, insoluble, qc, matches);
      } else if Cached(c, cache) {
        var i :| 0 <= i < |c| && c[i] in cache;
        assert Provides(virtuals, vfilter, matches(c[i]), c[i]);
        ProcessDepsetAgrees(clauses[1..], virtuals, vfilter, cache, insoluble, qc, matches);
      } else {
        assert forall j :: 0 <= j < |c| ==> CacheAgrees(qc, matches, clauses[0][j]);
        ScanClauseAgrees(c, virtuals, vfilter, qc, cache, insoluble, matches);
        var s := ScanClause(c, virtuals, vfilter, qc, cache, insoluble);
        if s.accepted {
          ProcessDepsetAgrees(clauses[1..], virtuals, vfilter, s.cache, s.insoluble, qc, matches);
        }
      }
    }
  }

  /** The reference result is the atom set of the first failing clause in
      clause order; with no empty clause, it is empty exactly when no
      clause fails. */
  lemma {:induction false} FirstFailureIsFirst(clauses: seq<Clause>, virtuals: Atom -> bool, vfilter: Pkg -> bool,
                                               matches: Atom -> seq<Pkg>)
    ensures var f := FirstFailure(clauses, virtuals, vfilter, matches);
            f != {} ==>
              exists k :: && 0 <= k < |clauses|
                          && Fails(clauses[k], virtuals, vfilter, matches)
                          && f == AtomSet(clauses[k])
                          && forall j :: 0 <= j < k ==> !Fails(clauses[j], virtuals, vfilter, matches)
    ensures (forall k :: 0 <= k < |clauses| ==> clauses[k] != []) ==>
              (FirstFailure(clauses, virtuals, vfilter, matches) == {} <==>
               forall k :: 0 <= k < |clauses| ==> !Fails(clauses[k], virtuals, vfilter, matches))
    decreases |clauses|
  {
    if clauses != [] {
      FirstFailureIsFirst(clauses[1..], virtuals, vfilter, matches);
      var f := FirstFailure(clauses, virtuals, vfilter, matches);
      if !Fails(clauses[0], virtuals, vfilter, matches) {
        if f != {} {
          var k :| && 0 <= k < |clauses[1..]|
                   && Fails(clauses[1..][k], virtuals, vfilter, matches)
                   && f == AtomSet(clauses[1..][k])
                   && forall j :: 0 <= j < k ==> !Fails(clauses[1..][j], virtuals, vfilter, matches);
          assert forall j :: 0 < j < k + 1 ==> clauses[j] == clauses[1..][j - 1];
          assert Fails(clauses[k + 1], virtuals, vfilter, matches);
        }
        if forall k :: 0 <= k < |clauses| ==> clauses[k] != [] {
          assert forall k :: 0 <= k < |clauses[1..]| ==> clauses[1..][k] == clauses[k + 1];
        }
      } else {
        assert clauses[0] != [] ==> clauses[0][0] in AtomSet(clauses[0]);
      }
    }
  }
}
