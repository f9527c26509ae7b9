/** The nonexistent-dependency pre-pass of the visibility check: every
    atom of a dependency attribute is looked up once in the shared query
    cache, queried from the repository on a miss, and recorded as
    nonexistent when nothing in the repository matches it. */
module Prepass {
  import opened Atoms
  import opened Depset

  /** State shared across packages: the query cache and the process-wide
      set of atoms known to match nothing in the repository. */
  datatype Shared = Shared(queryCache: QueryCache, globalInsoluble: set<Atom>)

  /** Outcome of the pre-pass over one attribute: the updated shared
      state, the atoms found nonexistent, and, in order, the atoms the
      repository matcher was asked about. */
  datatype PrePassOutcome = PrePassOutcome(shared: Shared, nonexistent: set<Atom>, queried: seq<Atom>)

  /** an atom that, matching nothing, is a nonexistent dependency:
      blockers and virtuals never are */
  predicate Reportable(a: Atom) {
    !a.blocks && !IsVirtual(a)
  }

  /** One atom of the pre-pass. An atom already in the query cache is
      left alone. Otherwise an atom in the global insoluble set is
      nonexistent and cached as matching nothing; any other atom is
      queried: matches are cached, and a zero-match atom that is neither
      a blocker nor a virtual is nonexistent, cached as matching nothing
      and added to the global insoluble set. */
  function Visit(repo: Atom -> seq<Pkg>, s: Shared, a: Atom): (r: PrePassOutcome)
    ensures forall x :: x in r.nonexistent <==>
              x == a && a !in s.queryCache && (a in s.globalInsoluble || (repo(a) == [] && Reportable(a)))
    ensures forall x :: x in s.queryCache ==> x in r.shared.queryCache && r.shared.queryCache[x] == s.queryCache[x]
    ensures forall x :: x in r.shared.queryCache <==>
              x in s.queryCache || (x == a && (a in s.globalInsoluble || repo(a) != [] || Reportable(a)))
    ensures forall x :: x in r.shared.queryCache && x !in s.queryCache ==>
              r.shared.queryCache[x] == if x in s.globalInsoluble then [] else repo(x)
    ensures forall x :: x in r.shared.globalInsoluble <==>
              x in s.globalInsoluble || (x == a && a !in s.queryCache && repo(a) == [] && Reportable(a))
    ensures forall x :: x in r.queried ==> x == a && a !in s.queryCache && a !in s.globalInsoluble
  {
    var qc := s.queryCache;
    var gi := s.globalInsoluble;
    if a in qc then PrePassOutcome(s, {}, [])
    else if a in gi then PrePassOutcome(Shared(qc[a := []], gi), {a}, [])
    else
      var matches := repo(a);
      if matches != [] then PrePassOutcome(Shared(qc[a := matches], gi), {}, [a])
      else if Reportable(a) then PrePassOutcome(Shared(qc[a := []], gi + {a}), {a}, [a])
      else PrePassOutcome(s, {}, [a])
  }

  /** One attribute's pre-pass: every atom visited in order, the shared
      state carried from each to the next. */
  function PrePass(repo: Atom -> seq<Pkg>, s: Shared, atoms: seq<Atom>): (r: PrePassOutcome)
    ensures forall a :: a in r.nonexistent <==>
              a in atoms && a !in s.queryCache && (a in s.globalInsoluble || (repo(a) == [] && Reportable(a)))
    ensures forall a :: a in s.queryCache ==> a in r.shared.queryCache && r.shared.queryCache[a] == s.queryCache[a]
    ensures forall a :: a in r.shared.queryCache <==>
              || a in s.queryCache
              || (a in atoms && (a in s.globalInsoluble || repo(a) != [] || Reportable(a)))
    ensures forall a :: a in r.shared.queryCache && a !in s.queryCache ==>
              r.shared.queryCache[a] == if a in s.globalInsoluble then [] else repo(a)
    ensures forall a :: a in r.shared.globalInsoluble <==>
              || a in s.globalInsoluble
              || (a in atoms && a !in s.queryCache && repo(a) == [] && Reportable(a))
    ensures forall a :: a in r.queried ==> a in atoms && a !in s.queryCache && a !in s.globalInsoluble
    decreases |atoms|
  {
    if atoms == [] then PrePassOutcome(s, {}, [])
    else
      assert forall x :: x in atoms <==> x == atoms[0] || x in atoms[1..];
      var v := Visit(repo, s, atoms[0]);
      var rest := PrePass(repo, v.shared, atoms[1..]);
      PrePassOutcome(rest.shared, v.nonexistent + rest.nonexistent, v.queried + rest.queried)
  }

  /** The shared state tells the truth about the repository: globally
      insoluble atoms match nothing and are neither blockers nor
      virtuals, and every query-cache entry is exactly the repository's
      matches for its atom. */
  predicate Sound(s: Shared, repo: Atom -> seq<Pkg>) {
    && (forall a :: a in s.globalInsoluble ==> repo(a) == [] && Reportable(a))
    && (forall a :: a in s.queryCache ==> s.queryCache[a] == repo(a))
  }

  /** every atom is in the query cache, except blockers and virtuals
      that match nothing */
  predicate Covers(s: Shared, repo: Atom -> seq<Pkg>, atoms: seq<Atom>) {
    forall i :: 0 <= i < |atoms| ==> atoms[i] in s.queryCache || (repo(atoms[i]) == [] && !Reportable(atoms[i]))
  }

  /** The pre-pass keeps the shared state truthful, leaves every atom of
      the attribute covered by the query cache, and never lets a
      globally insoluble atom appear in the query cache with matches. */
  lemma PrePassKeepsSound(repo: Atom -> seq<Pkg>, s: Shared, atoms: seq<Atom>)
    requires Sound(s, repo)
    ensures var r := PrePass(repo, s, atoms).shared;
            && Sound(r, repo)
            && Covers(r, repo, atoms)
            && forall a :: a in r.globalInsoluble && a in r.queryCache ==> r.queryCache[a] == []
  {
    var r := PrePass(repo, s, atoms).shared;
    forall i | 0 <= i < |atoms|
      ensures atoms[i] in r.queryCache || (repo(atoms[i]) == [] && !Reportable(atoms[i]))
    {
      assert atoms[i] in atoms;
    }
  }

  /** coverage survives the query cache gaining entries */
  lemma CoversGrows(s: Shared, t: Shared, repo: Atom -> seq<Pkg>, atoms: seq<Atom>)
    requires Covers(s, repo, atoms)
    requires s.queryCache.Keys <= t.queryCache.Keys
    ensures Covers(t, repo, atoms)
  {
  }
}
