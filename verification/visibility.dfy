/** The visibility check of one package: the nonexistent-dependency
    pre-pass, then, for every keyword whose filter accepts the package
    and every profile under it, the clause walk of both dependency
    attributes, with the reduction to clauses memoised per package by
    the flags that can change it; plus the report of version-control
    packages visible under an unstable keyword. */
module Visibility {
  import opened Atoms
  import opened Depset
  import opened Prepass
  import opened Outcomes

  /** A profile registered under a keyword: its virtuals index, enabled
      flags, flags exempt from tristate evaluation and visibility filter,
      with its own memo of satisfied (`cache`) and insoluble atoms. */
  datatype Profile = Profile(name: string, virtuals: Atom -> bool, flags: set<Flag>, nonTristate: set<Flag>,
                             vfilter: Pkg -> bool, cache: set<Atom>, insoluble: set<Atom>)

  /** A stability keyword ("x86", "~x86"): the filter a package must pass
      for the keyword to apply, and the profiles registered under it. */
  datatype Keyword = Keyword(key: string, filter: Pkg -> bool, profiles: seq<Profile>)

  datatype Finding =
    | VisibleVcsPkg(cpv: Cpv, arch: string, profile: string)
    | NonExistantDeps(cpv: Cpv, attr: string, atoms: set<Atom>)
    | NonsolvableDeps(cpv: Cpv, attr: string, keyword: string, profile: string, potentials: set<Atom>, masked: bool)

  /** The package manager's reduction of a dependency set to clauses,
      given the enabled flags and the flags exempt from tristate
      evaluation. */
  type Evaluator = (DepSet, set<Flag>, set<Flag>) -> seq<Clause>

  /** (tristate flags, set flags): what the reduction is memoised by */
  type EvalKey = (set<Flag>, set<Flag>)

  type EvalMemo = map<EvalKey, seq<Clause>>

  function MemoKey(d: DepSet, flags: set<Flag>, nonTristate: set<Flag>): EvalKey {
    (d.conditionals - nonTristate, d.conditionals * flags)
  }

  /** The reduction of `d` depends on the flags only through the memo
      key. The memo relies on this; the model takes it as a hypothesis
      about the package manager. */
  ghost predicate KeyDetermined(evaluate: Evaluator, d: DepSet) {
    forall f1, n1, f2, n2 :: MemoKey(d, f1, n1) == MemoKey(d, f2, n2) ==> evaluate(d, f1, n1) == evaluate(d, f2, n2)
  }

  /** every memo entry is the reduction under any flags with its key */
  ghost predicate MemoSound(memo: EvalMemo, evaluate: Evaluator, d: DepSet) {
    forall f, n :: MemoKey(d, f, n) in memo ==> memo[MemoKey(d, f, n)] == evaluate(d, f, n)
  }

  datatype Evaluated = Evaluated(clauses: seq<Clause>, memo: EvalMemo)

  /** The memoised reduction: the memo entry for the key when there is
      one, else a fresh reduction, stored under its key. */
  function EvaluateMemo(evaluate: Evaluator, d: DepSet, flags: set<Flag>, nonTristate: set<Flag>,
                        memo: EvalMemo): (r: Evaluated)
    ensures MemoKey(d, flags, nonTristate) in r.memo && r.memo[MemoKey(d, flags, nonTristate)] == r.clauses
    ensures forall k :: k in memo ==> k in r.memo && r.memo[k] == memo[k]
    ensures KeyDetermined(evaluate, d) && MemoSound(memo, evaluate, d) ==>
              r.clauses == evaluate(d, flags, nonTristate) && MemoSound(r.memo, evaluate, d)
  {
    var k := MemoKey(d, flags, nonTristate);
    if k in memo then Evaluated(memo[k], memo)
    else
      var clauses := evaluate(d, flags, nonTristate);
      Evaluated(clauses, memo[k := clauses])
  }

  /** the finding for a failing walk, none when nothing failed */
  function Nonsolvable(pkg: Pkg, attr: string, key: string, p: Profile, bad: set<Atom>): seq<Finding> {
    if bad != {} then [NonsolvableDeps(pkg.cpv, attr, key, p.name, bad, !p.vfilter(pkg))] else []
  }

  /** `q` is `p` with a memo that has only grown; nothing else differs */
  ghost predicate Grown(p: Profile, q: Profile) {
    q == p.(cache := q.cache, insoluble := q.insoluble) && p.cache <= q.cache && p.insoluble <= q.insoluble
  }

  /** `qs` is `ps`, profile by profile, with every memo grown */
  ghost predicate ProfilesGrown(ps: seq<Profile>, qs: seq<Profile>) {
    |qs| == |ps| && forall j :: 0 <= j < |ps| ==> Grown(ps[j], qs[j])
  }

  /** `k2` is `k` with every profile's memo grown */
  ghost predicate KeywordGrown(k: Keyword, k2: Keyword) {
    k2 == k.(profiles := k2.profiles) && ProfilesGrown(k.profiles, k2.profiles)
  }

  /** `ks` is `kws`, keyword by keyword, with every profile's memo grown */
  ghost predicate KeywordsGrown(kws: seq<Keyword>, ks: seq<Keyword>) {
    |ks| == |kws| && forall i :: 0 <= i < |kws| ==> KeywordGrown(kws[i], ks[i])
  }

  lemma ProfilesGrownCons(p: Profile, q: Profile, ps: seq<Profile>, qs: seq<Profile>)
    requires Grown(p, q) && ProfilesGrown(ps, qs)
    ensures ProfilesGrown([p] + ps, [q] + qs)
  {
    assert forall j :: 0 < j <= |ps| ==> ([p] + ps)[j] == ps[j - 1] && ([q] + qs)[j] == qs[j - 1];
  }

  lemma KeywordsGrownCons(k: Keyword, k2: Keyword, kws: seq<Keyword>, ks: seq<Keyword>)
    requires KeywordGrown(k, k2) && KeywordsGrown(kws, ks)
    ensures KeywordsGrown([k] + kws, [k2] + ks)
  {
    assert forall i :: 0 < i <= |kws| ==> ([k] + kws)[i] == kws[i - 1] && ([k2] + ks)[i] == ks[i - 1];
  }

  lemma KeywordsGrownTrans(a: seq<Keyword>, b: seq<Keyword>, c: seq<Keyword>)
    requires KeywordsGrown(a, b) && KeywordsGrown(b, c)
    ensures KeywordsGrown(a, c)
  {
    forall i | 0 <= i < |a| ensures KeywordGrown(a[i], c[i]) {
      assert KeywordGrown(a[i], b[i]) && KeywordGrown(b[i], c[i]);
      assert forall j :: 0 <= j < |a[i].profiles| ==>
               Grown(a[i].profiles[j], b[i].profiles[j]) && Grown(b[i].profiles[j], c[i].profiles[j]);
    }
  }

  /** `m2` keeps every entry of `m` */
  ghost predicate Extends(m: EvalMemo, m2: EvalMemo) {
    forall k :: k in m ==> k in m2 && m2[k] == m[k]
  }

  /** `f` reports, for this package, keyword and profile, a non-empty set
      of failing atoms of one attribute with the package's masked status
      under the profile */
  ghost predicate NonsolvableFor(f: Finding, pkg: Pkg, key: string, p: Profile) {
    && f.NonsolvableDeps?
    && f.cpv == pkg.cpv && f.keyword == key && f.profile == p.name
    && f.masked == !p.vfilter(pkg)
    && f.potentials != {}
    && (f.attr == "depends" || f.attr == "rdepends/pdepends")
  }

  /** `f` is a nonsolvable finding for one of the profiles `ps` */
  ghost predicate FromProfiles(f: Finding, pkg: Pkg, key: string, ps: seq<Profile>) {
    exists j :: 0 <= j < |ps| && NonsolvableFor(f, pkg, key, ps[j])
  }

  lemma FromProfilesSplit(pkg: Pkg, key: string, ps: seq<Profile>)
    requires ps != []
    ensures forall f :: FromProfiles(f, pkg, key, ps) <==>
                        NonsolvableFor(f, pkg, key, ps[0]) || FromProfiles(f, pkg, key, ps[1..])
  {
    assert forall j :: 0 <= j < |ps[1..]| ==> ps[1..][j] == ps[j + 1];
    forall f | FromProfiles(f, pkg, key, ps) && !NonsolvableFor(f, pkg, key, ps[0])
      ensures FromProfiles(f, pkg, key, ps[1..])
    {
      var j :| 0 <= j < |ps| && NonsolvableFor(f, pkg, key, ps[j]);
      assert ps[1..][j - 1] == ps[j];
    }
  }

  datatype ProfileOutcome = ProfileOutcome(profile: Profile, dmemo: EvalMemo, rmemo: EvalMemo, findings: seq<Finding>)

  /** One profile: walk the build-time, then the run-time clauses (the
      second walk sees the memo the first left), reporting each failing
      walk with the package's masked status under the profile. */
  function CheckProfile(evaluate: Evaluator, pkg: Pkg, key: string, p: Profile, qc: QueryCache,
                        dmemo: EvalMemo, rmemo: EvalMemo): (r: Result<ProfileOutcome, Atom>)
    ensures r.Success? ==> Grown(p, r.value.profile)
    ensures r.Success? ==> Extends(dmemo, r.value.dmemo) && Extends(rmemo, r.value.rmemo)
    ensures r.Success? ==> |r.value.findings| <= 2 && forall f :: f in r.value.findings ==> NonsolvableFor(f, pkg, key, p)
    ensures r.Failure? ==> r.error !in qc && !IsVirtual(r.error) && !p.virtuals(r.error)
  {
    var de := EvaluateMemo(evaluate, pkg.depends, p.flags, p.nonTristate, dmemo);
    match ProcessDepset(de.clauses, p.virtuals, p.vfilter, p.cache, p.insoluble, qc)
    case KeyMissing(a) => Failure(a)
    case Done(dbad, dcache, dinsoluble, _) =>
      var re := EvaluateMemo(evaluate, pkg.rdepends, p.flags, p.nonTristate, rmemo);
      match ProcessDepset(re.clauses, p.virtuals, p.vfilter, dcache, dinsoluble, qc)
      case KeyMissing(a) => Failure(a)
      case Done(rbad, rcache, rinsoluble, _) =>
        NonsolvablePair(pkg, key, p, dbad, rbad);
        Success(ProfileOutcome(p.(cache := rcache, insoluble := rinsoluble), de.memo, re.memo,
                               Nonsolvable(pkg, "depends", key, p, dbad)
                               + Nonsolvable(pkg, "rdepends/pdepends", key, p, rbad)))
  }

  /** the findings of the two walks of one profile */
  lemma NonsolvablePair(pkg: Pkg, key: string, p: Profile, dbad: set<Atom>, rbad: set<Atom>)
    ensures var r := Nonsolvable(pkg, "depends", key, p, dbad) + Nonsolvable(pkg, "rdepends/pdepends", key, p, rbad);
            |r| <= 2 && forall f :: f in r ==> NonsolvableFor(f, pkg, key, p)
  {
  }

  datatype ProfilesOutcome = ProfilesOutcome(profiles: seq<Profile>, dmemo: EvalMemo, rmemo: EvalMemo, findings: seq<Finding>)

  /** the profiles registered under one keyword, in order */
  function CheckProfiles(evaluate: Evaluator, pkg: Pkg, key: string, ps: seq<Profile>, qc: QueryCache,
                         dmemo: EvalMemo, rmemo: EvalMemo): (r: Result<ProfilesOutcome, Atom>)
    ensures r.Success? ==> ProfilesGrown(ps, r.value.profiles)
    ensures r.Success? ==> Extends(dmemo, r.value.dmemo) && Extends(rmemo, r.value.rmemo)
    ensures r.Success? ==> forall f :: f in r.value.findings ==> FromProfiles(f, pkg, key, ps)
    decreases |ps|
  {
    if ps == [] then Success(ProfilesOutcome([], dmemo, rmemo, []))
    else
      match CheckProfile(evaluate, pkg, key, ps[0], qc, dmemo, rmemo)
      case Failure(a) => Failure(a)
      case Success(first) =>
        match CheckProfiles(evaluate, pkg, key, ps[1..], qc, first.dmemo, first.rmemo)
        case Failure(a) => Failure(a)
        case Success(rest) =>
          ProfilesStep(pkg, key, ps, dmemo, rmemo, first, rest);
          Success(ProfilesOutcome([first.profile] + rest.profiles, rest.dmemo, rest.rmemo,
                                  first.findings + rest.findings))
  }

  /** one profile's outcome followed by the rest's keeps the loop's contract */
  lemma ProfilesStep(pkg: Pkg, key: string, ps: seq<Profile>, dmemo: EvalMemo, rmemo: EvalMemo,
                     first: ProfileOutcome, rest: ProfilesOutcome)
    requires ps != []
    requires Grown(ps[0], first.profile) && Extends(dmemo, first.dmemo) && Extends(rmemo, first.rmemo)
    requires forall f :: f in first.findings ==> NonsolvableFor(f, pkg, key, ps[0])
    requires ProfilesGrown(ps[1..], rest.profiles) && Extends(first.dmemo, rest.dmemo) && Extends(first.rmemo, rest.rmemo)
    requires forall f :: f in rest.findings ==> FromProfiles(f, pkg, key, ps[1..])
    ensures ProfilesGrown(ps, [first.profile] + rest.profiles)
    ensures Extends(dmemo, rest.dmemo) && Extends(rmemo, rest.rmemo)
    ensures forall f :: f in first.findings + rest.findings ==> FromProfiles(f, pkg, key, ps)
  {
    assert ps == [ps[0]] + ps[1..];
    ProfilesGrownCons(ps[0], first.profile, ps[1..], rest.profiles);
    FromProfilesSplit(pkg, key, ps);
  }

  datatype KeywordsOutcome = KeywordsOutcome(keywords: seq<Keyword>, dmemo: EvalMemo, rmemo: EvalMemo, findings: seq<Finding>)

  /** The keyword loop: a keyword whose filter rejects the package is
      passed over and none of its profiles is examined. */
  function CheckKeywords(evaluate: Evaluator, pkg: Pkg, kws: seq<Keyword>, qc: QueryCache,
                         dmemo: EvalMemo, rmemo: EvalMemo): (r: Result<KeywordsOutcome, Atom>)
    ensures r.Success? ==> KeywordsGrown(kws, r.value.keywords)
    ensures r.Success? ==> RejectedKept(pkg, kws, r.value.keywords)
    decreases |kws|
  {
    if kws == [] then Success(KeywordsOutcome([], dmemo, rmemo, []))
    else
      var k := kws[0];
      if !k.filter(pkg) then
        match CheckKeywords(evaluate, pkg, kws[1..], qc, dmemo, rmemo)
        case Failure(a) => Failure(a)
        case Success(rest) =>
          assert ProfilesGrown(k.profiles, k.profiles);
          KeywordsStep(pkg, kws, k, rest.keywords);
          Success(rest.(keywords := [k] + rest.keywords))
      else
        match CheckProfiles(evaluate, pkg, k.key, k.profiles, qc, dmemo, rmemo)
        case Failure(a) => Failure(a)
        case Success(first) =>
          match CheckKeywords(evaluate, pkg, kws[1..], qc, first.dmemo, first.rmemo)
          case Failure(a) => Failure(a)
          case Success(rest) =>
            KeywordsStep(pkg, kws, k.(profiles := first.profiles), rest.keywords);
            Success(KeywordsOutcome([k.(profiles := first.profiles)] + rest.keywords, rest.dmemo, rest.rmemo,
                                    first.findings + rest.findings))
  }

  /** every keyword whose filter rejects the package is kept as it was */
  ghost predicate RejectedKept(pkg: Pkg, kws: seq<Keyword>, ks: seq<Keyword>) {
    |ks| == |kws| && forall i :: 0 <= i < |kws| && !kws[i].filter(pkg) ==> ks[i] == kws[i]
  }

  /** the first keyword's outcome followed by the rest's keeps the loop's contract */
  lemma KeywordsStep(pkg: Pkg, kws: seq<Keyword>, k2: Keyword, ks: seq<Keyword>)
    requires kws != [] && KeywordGrown(kws[0], k2) && (!kws[0].filter(pkg) ==> k2 == kws[0])
    requires KeywordsGrown(kws[1..], ks) && RejectedKept(pkg, kws[1..], ks)
    ensures KeywordsGrown(kws, [k2] + ks) && RejectedKept(pkg, kws, [k2] + ks)
  {
    assert kws == [kws[0]] + kws[1..];
    KeywordsGrownCons(kws[0], k2, kws[1..], ks);
    assert forall i :: 0 < i < |kws| ==> kws[i] == kws[1..][i - 1] && ([k2] + ks)[i] == ks[i - 1];
  }

  /** `f` is a nonsolvable finding for some profile under a keyword whose
      filter accepts the package */
  ghost predicate FromAcceptingKeyword(f: Finding, pkg: Pkg, kws: seq<Keyword>) {
    exists i :: 0 <= i < |kws| && kws[i].filter(pkg) && FromProfiles(f, pkg, kws[i].key, kws[i].profiles)
  }

  lemma FromAcceptingTail(f: Finding, pkg: Pkg, kws: seq<Keyword>)
    requires kws != [] && FromAcceptingKeyword(f, pkg, kws[1..])
    ensures FromAcceptingKeyword(f, pkg, kws)
  {
    var i :| 0 <= i < |kws[1..]| && kws[1..][i].filter(pkg) && FromProfiles(f, pkg, kws[1..][i].key, kws[1..][i].profiles);
    assert kws[1..][i] == kws[i + 1];
  }

  lemma FromAcceptingHead(f: Finding, pkg: Pkg, kws: seq<Keyword>)
    requires kws != [] && kws[0].filter(pkg)
    requires FromProfiles(f, pkg, kws[0].key, kws[0].profiles)
    ensures FromAcceptingKeyword(f, pkg, kws)
  {
  }

  /** Every finding of the keyword loop belongs to a profile under a
      keyword that accepts the package, and carries that profile's masked
      status for the package. */
  lemma {:induction false} CheckKeywordsFindings(evaluate: Evaluator, pkg: Pkg, kws: seq<Keyword>, qc: QueryCache,
                                                 dmemo: EvalMemo, rmemo: EvalMemo)
    ensures var r := CheckKeywords(evaluate, pkg, kws, qc, dmemo, rmemo);
            r.Success? ==> forall f :: f in r.value.findings ==> FromAcceptingKeyword(f, pkg, kws)
    decreases |kws|
  {
    var r := CheckKeywords(evaluate, pkg, kws, qc, dmemo, rmemo);
    if kws != [] && r.Success? {
      var k := kws[0];
      if !k.filter(pkg) {
        var rest := CheckKeywords(evaluate, pkg, kws[1..], qc, dmemo, rmemo);
        CheckKeywordsFindings(evaluate, pkg, kws[1..], qc, dmemo, rmemo);
        assert r.value.findings == rest.value.findings;
        forall f | f in r.value.findings
          ensures FromAcceptingKeyword(f, pkg, kws)
        {
          FromAcceptingTail(f, pkg, kws);
        }
      } else {
        var first := CheckProfiles(evaluate, pkg, k.key, k.profiles, qc, dmemo, rmemo).value;
        var rest := CheckKeywords(evaluate, pkg, kws[1..], qc, first.dmemo, first.rmemo);
        CheckKeywordsFindings(evaluate, pkg, kws[1..], qc, first.dmemo, first.rmemo);
        assert r.value.findings == first.findings + rest.value.findings;
        forall f | f in r.value.findings
          ensures FromAcceptingKeyword(f, pkg, kws)
        {
          if f in first.findings {
            FromAcceptingHead(f, pkg, kws);
          } else {
            FromAcceptingTail(f, pkg, kws);
          }
        }
      }
    }
  }

  /** The atoms a pre-pass from state `s` reports as nonexistent: those
      not yet in the query cache that are globally insoluble, or that
      match nothing and are neither blockers nor virtuals. */
  ghost function NewlyNonexistent(repo: Atom -> seq<Pkg>, s: Shared, atoms: seq<Atom>): set<Atom> {
    set a | a in atoms && a !in s.queryCache && (a in s.globalInsoluble || (repo(a) == [] && Reportable(a)))
  }

  /** the nonexistent-dependency finding of one attribute, none when empty */
  function NonexistentReport(pkg: Pkg, attr: string, atoms: set<Atom>): seq<Finding> {
    if atoms != {} then [NonExistantDeps(pkg.cpv, attr, atoms)] else []
  }

  /** the first pre-pass reports exactly the newly nonexistent atoms */
  lemma FirstPrePass(repo: Atom -> seq<Pkg>, s: Shared, atoms: seq<Atom>)
    ensures PrePass(repo, s, atoms).nonexistent == NewlyNonexistent(repo, s, atoms)
  {
  }

  lemma SecondPrePass(repo: Atom -> seq<Pkg>, s: Shared, first: seq<Atom>, second: seq<Atom>)
    ensures PrePass(repo, PrePass(repo, s, first).shared, second).nonexistent
            == NewlyNonexistent(repo, s, second) - AtomSet(first)
  {
    var s1 := PrePass(repo, s, first).shared;
    var n := PrePass(repo, s1, second).nonexistent;
    forall a ensures a in n <==> a in NewlyNonexistent(repo, s, second) - AtomSet(first) {
      assert a in AtomSet(first) <==> a in first;
    }
  }

  /** the nonexistent-dependency findings check_pkg opens with, from
      shared state `s`: the build-time atoms newly found nonexistent, then
      the run-time ones, less any build-time atom */
  ghost function PrePassFindings(repo: Atom -> seq<Pkg>, s: Shared, pkg: Pkg): seq<Finding> {
    NonexistentReport(pkg, "depends", NewlyNonexistent(repo, s, pkg.depends.atoms))
    + NonexistentReport(pkg, "rdepends", NewlyNonexistent(repo, s, pkg.rdepends.atoms) - AtomSet(pkg.depends.atoms))
  }

  /** the shared state after both of a package's pre-passes */
  function AfterPrePass(repo: Atom -> seq<Pkg>, s: Shared, pkg: Pkg): Shared {
    PrePass(repo, PrePass(repo, s, pkg.depends.atoms).shared, pkg.rdepends.atoms).shared
  }

  datatype PkgOutcome = PkgOutcome(keywords: seq<Keyword>, shared: Shared, findings: seq<Finding>)

  /** check_pkg: the pre-pass over build-time, then run-time atoms, each
      reported at most once as a nonexistent-dependency finding, followed
      by the keyword loop over a fresh reduction memo per attribute. An
      atom of both attributes is reported only for the build-time one,
      since the first pass leaves it in the query cache. */
  function CheckPkg(repo: Atom -> seq<Pkg>, evaluate: Evaluator, kws: seq<Keyword>, s: Shared,
                    pkg: Pkg): (r: Result<PkgOutcome, Atom>)
    ensures r.Success? ==>
              var pre := PrePassFindings(repo, s, pkg);
              && |pre| <= |r.value.findings|
              && r.value.findings[..|pre|] == pre
              && forall i :: |pre| <= i < |r.value.findings| ==> r.value.findings[i].NonsolvableDeps?
    ensures r.Success? ==> KeywordsGrown(kws, r.value.keywords)
  {
    var d := PrePass(repo, s, pkg.depends.atoms);
    var rd := PrePass(repo, d.shared, pkg.rdepends.atoms);
    match CheckKeywords(evaluate, pkg, kws, rd.shared.queryCache, map[], map[])
    case Failure(a) => Failure(a)
    case Success(k) =>
      FirstPrePass(repo, s, pkg.depends.atoms);
      SecondPrePass(repo, s, pkg.depends.atoms, pkg.rdepends.atoms);
      CheckKeywordsFindings(evaluate, pkg, kws, rd.shared.queryCache, map[], map[]);
      var pre := NonexistentReport(pkg, "depends", d.nonexistent) + NonexistentReport(pkg, "rdepends", rd.nonexistent);
      assert forall i :: |pre| <= i < |pre + k.findings| ==> (pre + k.findings)[i] in k.findings;
      Success(PkgOutcome(k.keywords, rd.shared, pre + k.findings))
  }

  /** check_pkg reports nonexistent and nonsolvable dependencies only */
  lemma CheckPkgKinds(repo: Atom -> seq<Pkg>, evaluate: Evaluator, kws: seq<Keyword>, s: Shared, pkg: Pkg)
    ensures var r := CheckPkg(repo, evaluate, kws, s, pkg);
            r.Success? ==> forall f :: f in r.value.findings ==> f.NonExistantDeps? || f.NonsolvableDeps?
  {
    var r := CheckPkg(repo, evaluate, kws, s, pkg);
    if r.Success? {
      var pre := PrePassFindings(repo, s, pkg);
      forall f | f in r.value.findings ensures f.NonExistantDeps? || f.NonsolvableDeps? {
        var k :| 0 <= k < |r.value.findings| && r.value.findings[k] == f;
        if k < |pre| {
          assert r.value.findings[..|pre|][k] == pre[k];
        }
      }
    }
  }

  const VcsEclasses: set<string> := {"subversion", "git", "cvs", "darcs"}

  /** the package inherits a version-control eclass */
  predicate IsVcs(pkg: Pkg) {
    exists e :: e in VcsEclasses && e in pkg.eclasses
  }

  /** unstable keywords start with "~" */
  predicate Unstable(key: string) {
    |key| > 0 && key[0] == '~'
  }

  /** str.lstrip("~"): the keyword without its leading tildes */
  function StripTildes(s: string): (r: string)
    ensures |r| <= |s| && r == s[|s| - |r|..]
    ensures forall i :: 0 <= i < |s| - |r| ==> s[i] == '~'
    ensures |r| > 0 ==> r[0] != '~'
  {
    if |s| > 0 && s[0] == '~' then StripTildes(s[1..]) else s
  }

  /** the version-control finding for one keyword and profile */
  ghost predicate VcsFindingFor(f: Finding, pkg: Pkg, k: Keyword, p: Profile) {
    && Unstable(k.key) && p.vfilter(pkg)
    && f == VisibleVcsPkg(pkg.cpv, StripTildes(k.key), p.name)
  }

  /** `f` is the version-control finding for one of the profiles `ps` */
  ghost predicate VcsFromProfiles(f: Finding, pkg: Pkg, k: Keyword, ps: seq<Profile>) {
    exists j :: 0 <= j < |ps| && VcsFindingFor(f, pkg, k, ps[j])
  }

  lemma VcsFromProfilesSplit(pkg: Pkg, k: Keyword, ps: seq<Profile>)
    requires ps != []
    ensures forall f :: VcsFromProfiles(f, pkg, k, ps) <==>
                        VcsFindingFor(f, pkg, k, ps[0]) || VcsFromProfiles(f, pkg, k, ps[1..])
  {
    assert forall j :: 0 <= j < |ps[1..]| ==> ps[1..][j] == ps[j + 1];
    forall f | VcsFromProfiles(f, pkg, k, ps) && !VcsFindingFor(f, pkg, k, ps[0])
      ensures VcsFromProfiles(f, pkg, k, ps[1..])
    {
      var j :| 0 <= j < |ps| && VcsFindingFor(f, pkg, k, ps[j]);
      assert ps[1..][j - 1] == ps[j];
    }
  }

  function VcsProfiles(pkg: Pkg, k: Keyword, ps: seq<Profile>): (r: seq<Finding>)
    requires Unstable(k.key)
    ensures forall f :: f in r <==> VcsFromProfiles(f, pkg, k, ps)
    decreases |ps|
  {
    if ps == [] then []
    else
      VcsFromProfilesSplit(pkg, k, ps);
      (if ps[0].vfilter(pkg) then [VisibleVcsPkg(pkg.cpv, StripTildes(k.key), ps[0].name)] else [])
      + VcsProfiles(pkg, k, ps[1..])
  }

  /** check_visibility_vcs: one finding for every profile, under every
      unstable keyword, whose visibility filter accepts the package; the
      keyword's own filter plays no part. */
  function CheckVisibilityVcs(kws: seq<Keyword>, pkg: Pkg): (r: seq<Finding>)
    ensures forall f :: f in r <==> exists i :: 0 <= i < |kws| && VcsFromProfiles(f, pkg, kws[i], kws[i].profiles)
    decreases |kws|
  {
    if kws == [] then []
    else
      var rest := CheckVisibilityVcs(kws[1..], pkg);
      assert forall i :: 0 <= i < |kws[1..]| ==> kws[1..][i] == kws[i + 1];
      var here := if Unstable(kws[0].key) then VcsProfiles(pkg, kws[0], kws[0].profiles) else [];
      assert forall f :: f in here <==> VcsFromProfiles(f, pkg, kws[0], kws[0].profiles);
      here + rest
  }

  datatype FeedOutcome = FeedOutcome(keywords: seq<Keyword>, shared: Shared, findings: seq<Finding>)

  /** feed: the packages in order, each first checked for being a visible
      version-control package when it inherits a version-control eclass,
      then checked as above; the query cache and global insoluble set
      carry over from package to package. */
  function Feed(repo: Atom -> seq<Pkg>, evaluate: Evaluator, kws: seq<Keyword>, s: Shared,
                pkgs: seq<Pkg>): (r: Result<FeedOutcome, Atom>)
    ensures r.Success? ==> KeywordsGrown(kws, r.value.keywords)
    decreases |pkgs|
  {
    if pkgs == [] then Success(FeedOutcome(kws, s, []))
    else
      var pkg := pkgs[0];
      var vcs := if IsVcs(pkg) then CheckVisibilityVcs(kws, pkg) else [];
      match CheckPkg(repo, evaluate, kws, s, pkg)
      case Failure(a) => Failure(a)
      case Success(one) =>
        match Feed(repo, evaluate, one.keywords, one.shared, pkgs[1..])
        case Failure(a) => Failure(a)
        case Success(rest) =>
          KeywordsGrownTrans(kws, one.keywords, rest.keywords);
          Success(FeedOutcome(rest.keywords, rest.shared, vcs + one.findings + rest.findings))
  }

  /** every version-control finding names a package of `pkgs` that
      inherits a version-control eclass */
  predicate VcsFrom(findings: seq<Finding>, pkgs: seq<Pkg>) {
    forall f :: f in findings && f.VisibleVcsPkg? ==>
      exists i :: 0 <= i < |pkgs| && IsVcs(pkgs[i]) && f.cpv == pkgs[i].cpv
  }

  /** Only a package that inherits a version-control eclass yields a
      version-control finding, and it names that package. */
  lemma {:induction false} FeedVcsOnly(repo: Atom -> seq<Pkg>, evaluate: Evaluator, kws: seq<Keyword>, s: Shared,
                                       pkgs: seq<Pkg>)
    ensures var r := Feed(repo, evaluate, kws, s, pkgs);
            r.Success? ==> VcsFrom(r.value.findings, pkgs)
    decreases |pkgs|
  {
    var r := Feed(repo, evaluate, kws, s, pkgs);
    if pkgs != [] && r.Success? {
      var pkg := pkgs[0];
      var vcs := if IsVcs(pkg) then CheckVisibilityVcs(kws, pkg) else [];
      var one := CheckPkg(repo, evaluate, kws, s, pkg).value;
      var rest := Feed(repo, evaluate, one.keywords, one.shared, pkgs[1..]).value;
      FeedVcsOnly(repo, evaluate, one.keywords, one.shared, pkgs[1..]);
      CheckPkgKinds(repo, evaluate, kws, s, pkg);
      if IsVcs(pkg) {
        VcsNamesPkg(kws, pkg);
      }
      VcsFromStep(pkgs, vcs, one.findings, rest.findings);
    }
  }

  /** every finding of check_visibility_vcs names the package */
  lemma VcsNamesPkg(kws: seq<Keyword>, pkg: Pkg)
    ensures forall f :: f in CheckVisibilityVcs(kws, pkg) ==> f.VisibleVcsPkg? && f.cpv == pkg.cpv
  {
    forall f | f in CheckVisibilityVcs(kws, pkg) ensures f.VisibleVcsPkg? && f.cpv == pkg.cpv {
      var i :| 0 <= i < |kws| && VcsFromProfiles(f, pkg, kws[i], kws[i].profiles);
    }
  }

  lemma VcsFromStep(pkgs: seq<Pkg>, vcs: seq<Finding>, mid: seq<Finding>, later: seq<Finding>)
    requires pkgs != []
    requires vcs != [] ==> IsVcs(pkgs[0])
    requires forall f :: f in vcs ==> f.cpv == pkgs[0].cpv
    requires forall f :: f in mid ==> !f.VisibleVcsPkg?
    requires VcsFrom(later, pkgs[1..])
    ensures VcsFrom(vcs + mid + later, pkgs)
  {
    forall f | f in vcs + mid + later && f.VisibleVcsPkg?
      ensures exists i :: 0 <= i < |pkgs| && IsVcs(pkgs[i]) && f.cpv == pkgs[i].cpv
    {
      if f in vcs {
        assert IsVcs(pkgs[0]) && f.cpv == pkgs[0].cpv;
      } else if f in later {
        var i :| 0 <= i < |pkgs[1..]| && IsVcs(pkgs[1..][i]) && f.cpv == pkgs[1..][i].cpv;
        assert pkgs[i + 1] == pkgs[1..][i];
      }
    }
  }

  /* Memo-free reference semantics of the keyword loop, and the theorem
     that the memoised loop computes it. */

  /** One profile's findings computed naively: each attribute reduced
      afresh, and its first failing clause taken against the repository
      matcher itself rather than against any cache. */
  ghost function ReferenceProfile(repo: Atom -> seq<Pkg>, evaluate: Evaluator, pkg: Pkg, key: string,
                                  p: Profile): seq<Finding> {
    var dclauses := evaluate(pkg.depends, p.flags, p.nonTristate);
    var rclauses := evaluate(pkg.rdepends, p.flags, p.nonTristate);
    Nonsolvable(pkg, "depends", key, p, FirstFailure(dclauses, p.virtuals, p.vfilter, repo))
    + Nonsolvable(pkg, "rdepends/pdepends", key, p, FirstFailure(rclauses, p.virtuals, p.vfilter, repo))
  }

  ghost function ReferenceProfiles(repo: Atom -> seq<Pkg>, evaluate: Evaluator, pkg: Pkg, key: string,
                                   ps: seq<Profile>): seq<Finding>
    decreases |ps|
  {
    if ps == [] then [] else ReferenceProfile(repo, evaluate, pkg, key, ps[0]) + ReferenceProfiles(repo, evaluate, pkg, key, ps[1..])
  }

  /** the naive findings of every profile under every accepting keyword */
  ghost function ReferenceFindings(repo: Atom -> seq<Pkg>, evaluate: Evaluator, pkg: Pkg,
                                   kws: seq<Keyword>): seq<Finding>
    decreases |kws|
  {
    if kws == [] then []
    else (if kws[0].filter(pkg) then ReferenceProfiles(repo, evaluate, pkg, kws[0].key, kws[0].profiles) else [])
         + ReferenceFindings(repo, evaluate, pkg, kws[1..])
  }

  /** the profile's memo tells the truth about the repository */
  ghost predicate Truthful(p: Profile, repo: Atom -> seq<Pkg>) {
    Consistent(p.cache, p.insoluble, p.virtuals, p.vfilter, repo)
  }

  ghost predicate ProfilesTruthful(ps: seq<Profile>, repo: Atom -> seq<Pkg>) {
    forall j :: 0 <= j < |ps| ==> Truthful(ps[j], repo)
  }

  ghost predicate AllTruthful(kws: seq<Keyword>, repo: Atom -> seq<Pkg>) {
    forall i :: 0 <= i < |kws| ==> ProfilesTruthful(kws[i].profiles, repo)
  }

  lemma ProfilesTruthfulSplit(ps: seq<Profile>, repo: Atom -> seq<Pkg>)
    requires ps != []
    ensures ProfilesTruthful(ps, repo) <==> Truthful(ps[0], repo) && ProfilesTruthful(ps[1..], repo)
  {
    assert forall j :: 0 <= j < |ps[1..]| ==> ps[1..][j] == ps[j + 1];
  }

  lemma AllTruthfulSplit(kws: seq<Keyword>, repo: Atom -> seq<Pkg>)
    requires kws != []
    ensures AllTruthful(kws, repo) <==> ProfilesTruthful(kws[0].profiles, repo) && AllTruthful(kws[1..], repo)
  {
    assert forall i :: 0 <= i < |kws[1..]| ==> kws[1..][i] == kws[i + 1];
  }

  /** the reduction of `d` only ever yields atoms of `d` */
  ghost predicate WithinAtoms(evaluate: Evaluator, d: DepSet) {
    forall f, n, k, j :: 0 <= k < |evaluate(d, f, n)| && 0 <= j < |evaluate(d, f, n)[k]| ==>
      evaluate(d, f, n)[k][j] in d.atoms
  }

  /** under any flags, the query cache agrees with the repository on the
      atoms of both attributes' clauses */
  ghost predicate PkgAgrees(evaluate: Evaluator, pkg: Pkg, qc: QueryCache, repo: Atom -> seq<Pkg>) {
    forall f, n :: AgreesOn(evaluate(pkg.depends, f, n), qc, repo) && AgreesOn(evaluate(pkg.rdepends, f, n), qc, repo)
  }

  /** the hypotheses about the package manager for one package */
  ghost predicate WellReduced(evaluate: Evaluator, pkg: Pkg) {
    && WithinAtoms(evaluate, pkg.depends) && WithinAtoms(evaluate, pkg.rdepends)
    && KeyDetermined(evaluate, pkg.depends) && KeyDetermined(evaluate, pkg.rdepends)
  }

  lemma CoverageAgrees(repo: Atom -> seq<Pkg>, s: Shared, evaluate: Evaluator, d: DepSet, f: set<Flag>, n: set<Flag>)
    requires Sound(s, repo) && Covers(s, repo, d.atoms) && WithinAtoms(evaluate, d)
    ensures AgreesOn(evaluate(d, f, n), s.queryCache, repo)
  {
    var clauses := evaluate(d, f, n);
    forall k, j | 0 <= k < |clauses| && 0 <= j < |clauses[k]| && !HasBlocker(clauses[k])
      ensures CacheAgrees(s.queryCache, repo, clauses[k][j])
    {
      var a := clauses[k][j];
      var i :| 0 <= i < |d.atoms| && d.atoms[i] == a;
      assert !a.blocks;
    }
  }

  lemma {:induction false} CheckProfileAgrees(repo: Atom -> seq<Pkg>, evaluate: Evaluator, pkg: Pkg, key: string,
                                              p: Profile, qc: QueryCache, dmemo: EvalMemo, rmemo: EvalMemo)
    requires Truthful(p, repo) && PkgAgrees(evaluate, pkg, qc, repo)
    requires KeyDetermined(evaluate, pkg.depends) && KeyDetermined(evaluate, pkg.rdepends)
    requires MemoSound(dmemo, evaluate, pkg.depends) && MemoSound(rmemo, evaluate, pkg.rdepends)
    ensures var r := CheckProfile(evaluate, pkg, key, p, qc, dmemo, rmemo);
            && r.Success?
            && r.value.findings == ReferenceProfile(repo, evaluate, pkg, key, p)
            && Truthful(r.value.profile, repo)
            && MemoSound(r.value.dmemo, evaluate, pkg.depends) && MemoSound(r.value.rmemo, evaluate, pkg.rdepends)
  {
    var de := EvaluateMemo(evaluate, pkg.depends, p.flags, p.nonTristate, dmemo);
    assert AgreesOn(evaluate(pkg.depends, p.flags, p.nonTristate), qc, repo);
    ProcessDepsetAgrees(de.clauses, p.virtuals, p.vfilter, p.cache, p.insoluble, qc, repo);
    var d := ProcessDepset(de.clauses, p.virtuals, p.vfilter, p.cache, p.insoluble, qc);
    var re := EvaluateMemo(evaluate, pkg.rdepends, p.flags, p.nonTristate, rmemo);
    assert AgreesOn(evaluate(pkg.rdepends, p.flags, p.nonTristate), qc, repo);
    ProcessDepsetAgrees(re.clauses, p.virtuals, p.vfilter, d.cache, d.insoluble, qc, repo);
  }

  lemma {:induction false} CheckProfilesAgrees(repo: Atom -> seq<Pkg>, evaluate: Evaluator, pkg: Pkg, key: string,
                                               ps: seq<Profile>, qc: QueryCache, dmemo: EvalMemo, rmemo: EvalMemo)
    requires ProfilesTruthful(ps, repo)
    requires PkgAgrees(evaluate, pkg, qc, repo)
    requires KeyDetermined(evaluate, pkg.depends) && KeyDetermined(evaluate, pkg.rdepends)
    requires MemoSound(dmemo, evaluate, pkg.depends) && MemoSound(rmemo, evaluate, pkg.rdepends)
    ensures var r := CheckProfiles(evaluate, pkg, key, ps, qc, dmemo, rmemo);
            && r.Success?
            && r.value.findings == ReferenceProfiles(repo, evaluate, pkg, key, ps)
            && ProfilesTruthful(r.value.profiles, repo)
            && MemoSound(r.value.dmemo, evaluate, pkg.depends) && MemoSound(r.value.rmemo, evaluate, pkg.rdepends)
    decreases |ps|
  {
    if ps != [] {
      ProfilesTruthfulSplit(ps, repo);
      CheckProfileAgrees(repo, evaluate, pkg, key, ps[0], qc, dmemo, rmemo);
      var first := CheckProfile(evaluate, pkg, key, ps[0], qc, dmemo, rmemo).value;
      CheckProfilesAgrees(repo, evaluate, pkg, key, ps[1..], qc, first.dmemo, first.rmemo);
      var r := CheckProfiles(evaluate, pkg, key, ps, qc, dmemo, rmemo).value;
      var rest := CheckProfiles(evaluate, pkg, key, ps[1..], qc, first.dmemo, first.rmemo).value;
      assert r.profiles == [first.profile] + rest.profiles;
      ProfilesTruthfulSplit(r.profiles, repo);
    }
  }

  lemma {:induction false} CheckKeywordsAgrees(repo: Atom -> seq<Pkg>, evaluate: Evaluator, pkg: Pkg,
                                               kws: seq<Keyword>, qc: QueryCache, dmemo: EvalMemo, rmemo: EvalMemo)
    requires AllTruthful(kws, repo)
    requires PkgAgrees(evaluate, pkg, qc, repo)
    requires KeyDetermined(evaluate, pkg.depends) && KeyDetermined(evaluate, pkg.rdepends)
    requires MemoSound(dmemo, evaluate, pkg.depends) && MemoSound(rmemo, evaluate, pkg.rdepends)
    ensures var r := CheckKeywords(evaluate, pkg, kws, qc, dmemo, rmemo);
            && r.Success?
            && r.value.findings == ReferenceFindings(repo, evaluate, pkg, kws)
            && AllTruthful(r.value.keywords, repo)
    decreases |kws|
  {
    if kws != [] {
      var k := kws[0];
      AllTruthfulSplit(kws, repo);
      var dm, rm := dmemo, rmemo;
      if k.filter(pkg) {
        CheckProfilesAgrees(repo, evaluate, pkg, k.key, k.profiles, qc, dmemo, rmemo);
        var first := CheckProfiles(evaluate, pkg, k.key, k.profiles, qc, dmemo, rmemo).value;
        dm, rm := first.dmemo, first.rmemo;
      }
      CheckKeywordsAgrees(repo, evaluate, pkg, kws[1..], qc, dm, rm);
      var r := CheckKeywords(evaluate, pkg, kws, qc, dmemo, rmemo).value;
      var rest := CheckKeywords(evaluate, pkg, kws[1..], qc, dm, rm).value;
      assert r.keywords[1..] == rest.keywords;
      AllTruthfulSplit(r.keywords, repo);
    }
  }

  /** check_pkg computes the naive findings: the nonexistent-atom
      findings followed by exactly the reference findings of every profile
      under every accepting keyword. The lookup error never happens, the
      shared state is the one both pre-passes leave, and it and every
      profile memo stay truthful, given that the reduction only yields the
      attribute's own atoms and depends on the flags only through the
      memo key. */
  lemma CheckPkgAgrees(repo: Atom -> seq<Pkg>, evaluate: Evaluator, kws: seq<Keyword>, s: Shared, pkg: Pkg)
    requires Sound(s, repo) && AllTruthful(kws, repo) && WellReduced(evaluate, pkg)
    ensures var r := CheckPkg(repo, evaluate, kws, s, pkg);
            && r.Success?
            && Sound(r.value.shared, repo)
            && AllTruthful(r.value.keywords, repo)
            && r.value.shared == AfterPrePass(repo, s, pkg)
            && r.value.findings == ReferencePkg(repo, evaluate, kws, s, pkg)
  {
    var d := PrePass(repo, s, pkg.depends.atoms);
    PrePassKeepsSound(repo, s, pkg.depends.atoms);
    var rd := PrePass(repo, d.shared, pkg.rdepends.atoms);
    PrePassKeepsSound(repo, d.shared, pkg.rdepends.atoms);
    CoversGrows(d.shared, rd.shared, repo, pkg.depends.atoms);
    var qc := rd.shared.queryCache;
    forall f, n ensures AgreesOn(evaluate(pkg.depends, f, n), qc, repo) && AgreesOn(evaluate(pkg.rdepends, f, n), qc, repo) {
      CoverageAgrees(repo, rd.shared, evaluate, pkg.depends, f, n);
      CoverageAgrees(repo, rd.shared, evaluate, pkg.rdepends, f, n);
    }
    CheckKeywordsAgrees(repo, evaluate, pkg, kws, qc, map[], map[]);
    FirstPrePass(repo, s, pkg.depends.atoms);
    SecondPrePass(repo, s, pkg.depends.atoms, pkg.rdepends.atoms);
  }

  /** check_pkg computed naively: the nonexistent-atom findings, then the
      reference findings of every profile under every accepting keyword */
  ghost function ReferencePkg(repo: Atom -> seq<Pkg>, evaluate: Evaluator, kws: seq<Keyword>, s: Shared,
                              pkg: Pkg): seq<Finding> {
    PrePassFindings(repo, s, pkg) + ReferenceFindings(repo, evaluate, pkg, kws)
  }

  /** The feed computed naively: package by package, the version-control
      findings when the package inherits a version-control eclass, then
      its nonexistent-atom findings, then the reference findings of its
      keywords; only the shared state carries over. */
  ghost function ReferenceFeed(repo: Atom -> seq<Pkg>, evaluate: Evaluator, kws: seq<Keyword>, s: Shared,
                               pkgs: seq<Pkg>): seq<Finding>
    decreases |pkgs|
  {
    if pkgs == [] then []
    else
      var pkg := pkgs[0];
      (if IsVcs(pkg) then CheckVisibilityVcs(kws, pkg) else [])
      + ReferencePkg(repo, evaluate, kws, s, pkg)
      + ReferenceFeed(repo, evaluate, kws, AfterPrePass(repo, s, pkg), pkgs[1..])
  }

  /** The naive findings of a profile do not depend on its memo. */
  lemma {:induction false} ReferenceProfilesGrown(repo: Atom -> seq<Pkg>, evaluate: Evaluator, pkg: Pkg, key: string,
                                                  ps: seq<Profile>, qs: seq<Profile>)
    requires ProfilesGrown(ps, qs)
    ensures ReferenceProfiles(repo, evaluate, pkg, key, qs) == ReferenceProfiles(repo, evaluate, pkg, key, ps)
    decreases |ps|
  {
    if ps != [] {
      assert Grown(ps[0], qs[0]);
      assert forall j :: 0 <= j < |ps| - 1 ==> ps[1..][j] == ps[j + 1] && qs[1..][j] == qs[j + 1];
      ReferenceProfilesGrown(repo, evaluate, pkg, key, ps[1..], qs[1..]);
    }
  }

  lemma {:induction false} ReferenceFindingsGrown(repo: Atom -> seq<Pkg>, evaluate: Evaluator, pkg: Pkg,
                                                  kws: seq<Keyword>, ks: seq<Keyword>)
    requires KeywordsGrown(kws, ks)
    ensures ReferenceFindings(repo, evaluate, pkg, ks) == ReferenceFindings(repo, evaluate, pkg, kws)
    decreases |kws|
  {
    if kws != [] {
      assert KeywordGrown(kws[0], ks[0]);
      ReferenceProfilesGrown(repo, evaluate, pkg, kws[0].key, kws[0].profiles, ks[0].profiles);
      assert forall i :: 0 <= i < |kws| - 1 ==> kws[1..][i] == kws[i + 1] && ks[1..][i] == ks[i + 1];
      ReferenceFindingsGrown(repo, evaluate, pkg, kws[1..], ks[1..]);
    }
  }

  /** The version-control findings do not depend on the profiles' memos. */
  lemma {:induction false} VcsProfilesGrown(pkg: Pkg, k: Keyword, k2: Keyword, ps: seq<Profile>, qs: seq<Profile>)
    requires Unstable(k.key) && k2.key == k.key && ProfilesGrown(ps, qs)
    ensures VcsProfiles(pkg, k2, qs) == VcsProfiles(pkg, k, ps)
    decreases |ps|
  {
    if ps != [] {
      assert Grown(ps[0], qs[0]);
      assert forall j :: 0 <= j < |ps| - 1 ==> ps[1..][j] == ps[j + 1] && qs[1..][j] == qs[j + 1];
      VcsProfilesGrown(pkg, k, k2, ps[1..], qs[1..]);
    }
  }

  lemma {:induction false} VcsGrown(kws: seq<Keyword>, ks: seq<Keyword>, pkg: Pkg)
    requires KeywordsGrown(kws, ks)
    ensures CheckVisibilityVcs(ks, pkg) == CheckVisibilityVcs(kws, pkg)
    decreases |kws|
  {
    if kws != [] {
      assert KeywordGrown(kws[0], ks[0]);
      if Unstable(kws[0].key) {
        VcsProfilesGrown(pkg, kws[0], ks[0], kws[0].profiles, ks[0].profiles);
      }
      assert forall i :: 0 <= i < |kws| - 1 ==> kws[1..][i] == kws[i + 1] && ks[1..][i] == ks[i + 1];
      VcsGrown(kws[1..], ks[1..], pkg);
    }
  }

  lemma {:induction false} ReferenceFeedGrown(repo: Atom -> seq<Pkg>, evaluate: Evaluator, kws: seq<Keyword>,
                                              ks: seq<Keyword>, s: Shared, pkgs: seq<Pkg>)
    requires KeywordsGrown(kws, ks)
    ensures ReferenceFeed(repo, evaluate, ks, s, pkgs) == ReferenceFeed(repo, evaluate, kws, s, pkgs)
    decreases |pkgs|
  {
    if pkgs != [] {
      VcsGrown(kws, ks, pkgs[0]);
      ReferenceFindingsGrown(repo, evaluate, pkgs[0], kws, ks);
      ReferenceFeedGrown(repo, evaluate, kws, ks, AfterPrePass(repo, s, pkgs[0]), pkgs[1..]);
    }
  }

  /** Over a whole feed, from truthful state, no lookup error occurs and
      the shared state and every profile memo stay truthful. */
  lemma {:induction false} FeedAgrees(repo: Atom -> seq<Pkg>, evaluate: Evaluator, kws: seq<Keyword>, s: Shared,
                                      pkgs: seq<Pkg>)
    requires Sound(s, repo) && AllTruthful(kws, repo)
    requires forall i :: 0 <= i < |pkgs| ==> WellReduced(evaluate, pkgs[i])
    ensures var r := Feed(repo, evaluate, kws, s, pkgs);
            r.Success? && Sound(r.value.shared, repo) && AllTruthful(r.value.keywords, repo)
    decreases |pkgs|
  {
    if pkgs != [] {
      CheckPkgAgrees(repo, evaluate, kws, s, pkgs[0]);
      var one := CheckPkg(repo, evaluate, kws, s, pkgs[0]).value;
      assert forall i :: 0 <= i < |pkgs[1..]| ==> pkgs[1..][i] == pkgs[i + 1];
      FeedAgrees(repo, evaluate, one.keywords, one.shared, pkgs[1..]);
    }
  }

  /** From truthful state, the feed's findings are exactly the naive
      ones, package by package. */
  lemma {:induction false} FeedFindings(repo: Atom -> seq<Pkg>, evaluate: Evaluator, kws: seq<Keyword>, s: Shared,
                                        pkgs: seq<Pkg>)
    requires Sound(s, repo) && AllTruthful(kws, repo)
    requires forall i :: 0 <= i < |pkgs| ==> WellReduced(evaluate, pkgs[i])
    ensures var r := Feed(repo, evaluate, kws, s, pkgs);
            r.Success? && r.value.findings == ReferenceFeed(repo, evaluate, kws, s, pkgs)
    decreases |pkgs|
  {
    FeedAgrees(repo, evaluate, kws, s, pkgs);
    if pkgs != [] {
      var pkg := pkgs[0];
      CheckPkgAgrees(repo, evaluate, kws, s, pkg);
      var one := CheckPkg(repo, evaluate, kws, s, pkg).value;
      assert forall i :: 0 <= i < |pkgs[1..]| ==> pkgs[1..][i] == pkgs[i + 1];
      FeedFindings(repo, evaluate, one.keywords, one.shared, pkgs[1..]);
      ReferenceFeedGrown(repo, evaluate, kws, one.keywords, one.shared, pkgs[1..]);
      var rest := Feed(repo, evaluate, one.keywords, one.shared, pkgs[1..]).value;
      ReferenceFeedStep(repo, evaluate, kws, s, pkgs, one.findings, one.shared, rest.findings);
    }
  }

  /** one package's step of the naive feed */
  lemma ReferenceFeedStep(repo: Atom -> seq<Pkg>, evaluate: Evaluator, kws: seq<Keyword>, s: Shared, pkgs: seq<Pkg>,
                          findings: seq<Finding>, shared: Shared, later: seq<Finding>)
    requires pkgs != []
    requires findings == ReferencePkg(repo, evaluate, kws, s, pkgs[0])
    requires shared == AfterPrePass(repo, s, pkgs[0])
    requires later == ReferenceFeed(repo, evaluate, kws, shared, pkgs[1..])
    ensures (if IsVcs(pkgs[0]) then CheckVisibilityVcs(kws, pkgs[0]) else []) + findings + later
            == ReferenceFeed(repo, evaluate, kws, s, pkgs)
  {
  }
}
