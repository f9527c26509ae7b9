/** Repository-wide metadata checks: unused global USE flags, unused
    licenses, license groups naming unknown licenses, and the profiles
    directory report. Each is a start/feed/finish pipeline stage over
    finite sets of names; the repository and its packages reach it as
    the sets it reads. */
module RepoMetadata {
  import opened Outcomes
  import opened Ordering

  datatype Report =
    | UnusedGlobalFlags(flags: seq<string>)
    | UnusedLicenses(licenses: seq<string>)
    | UnknownCategories(categories: set<string>)
    | UnknownProfileArches(arches: set<string>)
    | ArchesWithoutProfiles(arches: set<string>)
    | NonexistentProfilePath(path: string)
    | UnknownProfileStatus(status: set<string>)
    | UnknownLicenses(group: string, unknown: set<string>)

  /** UnusedGlobalFlags keeps its flags as a sorted tuple */
  function MakeUnusedGlobalFlags(flags: set<string>): (r: Report)
    ensures r.UnusedGlobalFlags? && StrictlySorted(r.flags) && |r.flags| == |flags|
    ensures forall x :: x in r.flags <==> x in flags
  {
    UnusedGlobalFlags(SortedTuple(flags))
  }

  /** UnusedLicenses keeps its licenses as a sorted tuple */
  function MakeUnusedLicenses(licenses: set<string>): (r: Report)
    ensures r.UnusedLicenses? && StrictlySorted(r.licenses) && |r.licenses| == |licenses|
    ensures forall x :: x in r.licenses <==> x in licenses
  {
    UnusedLicenses(SortedTuple(licenses))
  }

  /** 's'[n == 1:] */
  function Plural(n: nat): string {
    if n == 1 then "" else "s"
  }

  function Join(items: seq<string>, sep: string): string
    decreases |items|
  {
    if items == [] then ""
    else if |items| == 1 then items[0]
    else items[0] + sep + Join(items[1..], sep)
  }

  function UnusedGlobalFlagsDesc(flags: seq<string>): string {
    "use.desc unused flag" + Plural(|flags|) + ": " + Join(flags, ", ")
  }

  function UnusedLicensesDesc(licenses: seq<string>): string {
    "unused license" + Plural(|licenses|) + ": " + Join(licenses, ", ")
  }

  /** The descriptions use the plural noun exactly when the report does
      not hold a single name. */
  lemma DescWording(names: seq<string>)
    ensures "use.desc unused flags: " <= UnusedGlobalFlagsDesc(names) <==> |names| != 1
    ensures "unused licenses: " <= UnusedLicensesDesc(names) <==> |names| != 1
  {
    if |names| == 1 {
      assert UnusedGlobalFlagsDesc(names)[20] == ':';
      assert UnusedLicensesDesc(names)[14] == ':';
    }
  }

  /** the union of a sequence of sets */
  function UnionAll(sets: seq<set<string>>): (r: set<string>)
    ensures forall x :: x in r <==> exists i :: 0 <= i < |sets| && x in sets[i]
    decreases |sets|
  {
    if sets == [] then {}
    else
      assert forall i :: 0 <= i < |sets[1..]| ==> sets[1..][i] == sets[i + 1];
      sets[0] + UnionAll(sets[1..])
  }

  /* UnusedGlobalFlagsCheck. Its state is None until a start for a
     repository without masters fills it. */

  function GlobalFlagsStart(flags: Option<set<string>>, hasMasters: bool, globalIuse: set<string>,
                            unstatedIuse: set<string>): Option<set<string>> {
    if !hasMasters then Some(globalIuse - unstatedIuse) else flags
  }

  /** feed: a package's stripped IUSE is no longer unused */
  function GlobalFlagsFeed(flags: Option<set<string>>, iuse: set<string>): Option<set<string>> {
    if flags.Some? && flags.value != {} then Some(flags.value - iuse) else flags
  }

  function GlobalFlagsFeedAll(flags: Option<set<string>>, iuses: seq<set<string>>): Option<set<string>>
    decreases |iuses|
  {
    if iuses == [] then flags else GlobalFlagsFeedAll(GlobalFlagsFeed(flags, iuses[0]), iuses[1..])
  }

  /** finish: report what is left, if anything, and empty the set */
  function GlobalFlagsFinish(flags: Option<set<string>>): (Option<set<string>>, seq<Report>) {
    if flags.Some? && flags.value != {} then (Some({}), [MakeUnusedGlobalFlags(flags.value)]) else (flags, [])
  }

  lemma {:induction false} GlobalFlagsFeedAllRemoves(s: set<string>, iuses: seq<set<string>>)
    ensures GlobalFlagsFeedAll(Some(s), iuses) == Some(s - UnionAll(iuses))
    decreases |iuses|
  {
    if iuses != [] {
      var next := if s != {} then s - iuses[0] else s;
      GlobalFlagsFeedAllRemoves(next, iuses[1..]);
      assert UnionAll(iuses) == iuses[0] + UnionAll(iuses[1..]);
      assert next - UnionAll(iuses[1..]) == s - UnionAll(iuses);
      assert GlobalFlagsFeedAll(Some(s), iuses) == GlobalFlagsFeedAll(Some(next), iuses[1..]);
    } else {
      assert s - UnionAll(iuses) == s;
    }
  }

  /** A run over a repository without masters reports, once, exactly the
      global flags that are neither unstated nor used by any package,
      when there are any, and leaves an empty set behind. */
  lemma GlobalFlagsRun(flags0: Option<set<string>>, globalIuse: set<string>, unstatedIuse: set<string>,
                       iuses: seq<set<string>>)
    ensures var unused := (globalIuse - unstatedIuse) - UnionAll(iuses);
            var (final, reports) := GlobalFlagsFinish(GlobalFlagsFeedAll(GlobalFlagsStart(flags0, false, globalIuse, unstatedIuse), iuses));
            && final == Some({})
            && reports == (if unused != {} then [MakeUnusedGlobalFlags(unused)] else [])
  {
    GlobalFlagsFeedAllRemoves(globalIuse - unstatedIuse, iuses);
  }

  /** A repository with masters, never started before, reports nothing. */
  lemma {:induction false} GlobalFlagsWithMasters(globalIuse: set<string>, unstatedIuse: set<string>,
                                                  iuses: seq<set<string>>)
    ensures GlobalFlagsFinish(GlobalFlagsFeedAll(GlobalFlagsStart(None, true, globalIuse, unstatedIuse), iuses)).1 == []
    decreases |iuses|
  {
    if iuses != [] {
      GlobalFlagsWithMasters(globalIuse, unstatedIuse, iuses[1..]);
    }
  }

  /* UnusedLicensesCheck. Its state is None outside a start..finish run. */

  /** start: the repository's licenses that no master repository has */
  function LicensesStart(repoLicenses: set<string>, masterLicenses: seq<set<string>>): Option<set<string>> {
    Some(repoLicenses - UnionAll(masterLicenses))
  }

  /** feed: a package's licenses are used; only valid after start */
  function LicensesFeed(licenses: Option<set<string>>, pkgLicenses: set<string>): Option<set<string>>
    requires licenses.Some?
  {
    Some(licenses.value - pkgLicenses)
  }

  function LicensesFeedAll(licenses: Option<set<string>>, pkgLicenses: seq<set<string>>): (r: Option<set<string>>)
    requires licenses.Some?
    ensures r.Some?
    decreases |pkgLicenses|
  {
    if pkgLicenses == [] then licenses else LicensesFeedAll(LicensesFeed(licenses, pkgLicenses[0]), pkgLicenses[1..])
  }

  /** finish: report what is left, if anything, and drop the state */
  function LicensesFinish(licenses: Option<set<string>>): (Option<set<string>>, seq<Report>) {
    (None, if licenses.Some? && licenses.value != {} then [MakeUnusedLicenses(licenses.value)] else [])
  }

  lemma {:induction false} LicensesFeedAllRemoves(s: set<string>, pkgLicenses: seq<set<string>>)
    ensures LicensesFeedAll(Some(s), pkgLicenses) == Some(s - UnionAll(pkgLicenses))
    decreases |pkgLicenses|
  {
    if pkgLicenses != [] {
      LicensesFeedAllRemoves(s - pkgLicenses[0], pkgLicenses[1..]);
      assert UnionAll(pkgLicenses) == pkgLicenses[0] + UnionAll(pkgLicenses[1..]);
      assert s - pkgLicenses[0] - UnionAll(pkgLicenses[1..]) == s - UnionAll(pkgLicenses);
      assert LicensesFeedAll(Some(s), pkgLicenses) == LicensesFeedAll(Some(s - pkgLicenses[0]), pkgLicenses[1..]);
    } else {
      assert s - UnionAll(pkgLicenses) == s;
    }
  }

  /** A run reports, once, exactly the repository's licenses that no
      master has and no package uses, when there are any, and ends with
      no state. */
  lemma LicensesRun(repoLicenses: set<string>, masterLicenses: seq<set<string>>, pkgLicenses: seq<set<string>>)
    ensures var unused := repoLicenses - UnionAll(masterLicenses) - UnionAll(pkgLicenses);
            var (final, reports) := LicensesFinish(LicensesFeedAll(LicensesStart(repoLicenses, masterLicenses), pkgLicenses));
            && final == None
            && reports == (if unused != {} then [MakeUnusedLicenses(unused)] else [])
  {
    LicensesFeedAllRemoves(repoLicenses - UnionAll(masterLicenses), pkgLicenses);
  }

  /* LicenseGroupsCheck */

  datatype LicenseGroup = LicenseGroup(name: string, licenses: set<string>)

  /** finish: one report per group naming licenses the repository does
      not have, in group order */
  function LicenseGroupsFinish(groups: seq<LicenseGroup>, repoLicenses: set<string>): (r: seq<Report>)
    ensures |r| <= |groups|
    ensures forall f :: f in r ==> f.UnknownLicenses? && f.unknown != {} && f.unknown !! repoLicenses
    decreases |groups|
  {
    if groups == [] then []
    else
      var unknown := groups[0].licenses - repoLicenses;
      (if unknown != {} then [UnknownLicenses(groups[0].name, unknown)] else [])
      + LicenseGroupsFinish(groups[1..], repoLicenses)
  }

  /** A group is reported exactly when it names a license the
      repository lacks, and its report lists exactly those licenses. */
  lemma {:induction false} LicenseGroupsReports(groups: seq<LicenseGroup>, repoLicenses: set<string>)
    ensures forall f :: f in LicenseGroupsFinish(groups, repoLicenses) <==>
              exists g :: && g in groups && !(g.licenses <= repoLicenses)
                          && f == UnknownLicenses(g.name, g.licenses - repoLicenses)
    decreases |groups|
  {
    if groups != [] {
      LicenseGroupsReports(groups[1..], repoLicenses);
      assert forall g :: g in groups <==> g == groups[0] || g in groups[1..];
      var unknown := groups[0].licenses - repoLicenses;
      assert unknown != {} <==> !(groups[0].licenses <= repoLicenses) by {
        if unknown == {} {
          forall x | x in groups[0].licenses ensures x in repoLicenses {
            assert x !in unknown;
          }
        } else {
          var x :| x in unknown;
        }
      }
    }
  }

  /* RepoProfilesReport.finish */

  datatype ProfileEntry = ProfileEntry(path: string, status: string)

  /** the profiles listed for one arch */
  datatype ArchProfiles = ArchProfiles(arch: string, entries: seq<ProfileEntry>)

  function ProfileArches(profiles: seq<ArchProfiles>): set<string> {
    set p | p in profiles :: p.arch
  }

  /** every status any profile declares */
  function ProfileStatuses(profiles: seq<ArchProfiles>): (r: set<string>)
    ensures forall s :: s in r <==> exists i, j :: 0 <= i < |profiles| && 0 <= j < |profiles[i].entries|
                                                  && profiles[i].entries[j].status == s
    decreases |profiles|
  {
    if profiles == [] then {}
    else
      assert forall i :: 0 <= i < |profiles[1..]| ==> profiles[1..][i] == profiles[i + 1];
      (set e | e in profiles[0].entries :: e.status) + ProfileStatuses(profiles[1..])
  }

  /** one report per entry, in order, whose path does not exist */
  function EntryReports(entries: seq<ProfileEntry>, pathExists: string -> bool): (r: seq<Report>)
    ensures forall f :: f in r ==> f.NonexistentProfilePath?
    ensures forall f :: f in r <==> exists j :: && 0 <= j < |entries| && !pathExists(entries[j].path)
                                                && f == NonexistentProfilePath(entries[j].path)
    decreases |entries|
  {
    if entries == [] then []
    else
      assert forall j :: 0 <= j < |entries[1..]| ==> entries[1..][j] == entries[j + 1];
      (if !pathExists(entries[0].path) then [NonexistentProfilePath(entries[0].path)] else [])
      + EntryReports(entries[1..], pathExists)
  }

  /** one report per profile entry, across all arches, whose path does
      not exist */
  function MissingPaths(profiles: seq<ArchProfiles>, pathExists: string -> bool): (r: seq<Report>)
    ensures forall f :: f in r ==> f.NonexistentProfilePath?
    ensures forall f :: f in r <==> exists i, j :: && 0 <= i < |profiles| && 0 <= j < |profiles[i].entries|
                                                  && !pathExists(profiles[i].entries[j].path)
                                                  && f == NonexistentProfilePath(profiles[i].entries[j].path)
    decreases |profiles|
  {
    if profiles == [] then []
    else
      assert forall i :: 0 <= i < |profiles[1..]| ==> profiles[1..][i] == profiles[i + 1];
      EntryReports(profiles[0].entries, pathExists) + MissingPaths(profiles[1..], pathExists)
  }

  /** the profile statuses the gentoo repository accepts */
  const AcceptedStatus: set<string> := {"stable", "dev", "exp"}

  /** what a directory listing of the repository root contributes as
      category candidates: no dot-directories, no false categories */
  function CategoryDirs(dirs: set<string>, falseCategories: set<string>): set<string> {
    set x | x in dirs && |x| > 0 && x[0] != '.' && x !in falseCategories
  }

  /** The repository layout the profiles report reads. */
  datatype RepoLayout = RepoLayout(
    repoId: string,
    dirs: set<string>,               // directories at the repository root
    falseCategories: set<string>,
    categories: set<string>,
    knownArches: set<string>,
    profiles: seq<ArchProfiles>,     // arch_profiles, in iteration order
    pathExists: string -> bool)      // whether profiles/<path> exists

  /** finish: unknown categories, profiles without a known arch and
      known arches without profiles, missing profile paths, and (for
      gentoo only) unknown profile statuses, in that order */
  function ProfilesFinish(repo: RepoLayout): (r: seq<Report>)
    ensures forall f :: f in r ==> f.UnknownCategories? || f.UnknownProfileArches? || f.ArchesWithoutProfiles?
                                   || f.NonexistentProfilePath? || f.UnknownProfileStatus?
    ensures forall p :: NonexistentProfilePath(p) in r <==>
              !repo.pathExists(p) && exists i, j :: 0 <= i < |repo.profiles| && 0 <= j < |repo.profiles[i].entries|
                                                 && repo.profiles[i].entries[j].path == p
  {
    var missing := MissingPaths(repo.profiles, repo.pathExists);
    var others := CategoriesReport(repo) + ArchReports(repo);
    assert forall f :: f in others + StatusReport(repo) ==> !f.NonexistentProfilePath?;
    assert forall f :: f in others + missing + StatusReport(repo) <==> f in others || f in missing || f in StatusReport(repo);
    others + missing + StatusReport(repo)
  }

  function CategoriesReport(repo: RepoLayout): seq<Report> {
    var unknown := CategoryDirs(repo.dirs, repo.falseCategories) - repo.categories;
    if unknown != {} then [UnknownCategories(unknown)] else []
  }

  function ArchReports(repo: RepoLayout): seq<Report> {
    var profileArches := ProfileArches(repo.profiles);
    var unknown := profileArches - repo.knownArches;
    var without := repo.knownArches - profileArches;
    (if unknown != {} then [UnknownProfileArches(unknown)] else [])
    + (if without != {} then [ArchesWithoutProfiles(without)] else [])
  }

  function StatusReport(repo: RepoLayout): seq<Report> {
    var unknown := ProfileStatuses(repo.profiles) - AcceptedStatus;
    if repo.repoId == "gentoo" && unknown != {} then [UnknownProfileStatus(unknown)] else []
  }

  /** The report names unknown categories exactly when a directory at the
      repository root, other than a dot-directory or a false category, is
      not a category, and then names exactly those. */
  lemma ProfilesFinishCategories(repo: RepoLayout)
    ensures forall c :: UnknownCategories(c) in ProfilesFinish(repo) <==>
              c == CategoryDirs(repo.dirs, repo.falseCategories) - repo.categories && c != {}
  {
    var r := ProfilesFinish(repo);
    assert r == CategoriesReport(repo) + (ArchReports(repo) + MissingPaths(repo.profiles, repo.pathExists) + StatusReport(repo));
  }

  /** Profiled arches that are not known, and known arches that have no
      profile, are each reported exactly when there are any. */
  lemma ProfilesFinishArches(repo: RepoLayout)
    ensures forall a :: UnknownProfileArches(a) in ProfilesFinish(repo) <==>
              a == ProfileArches(repo.profiles) - repo.knownArches && a != {}
    ensures forall a :: ArchesWithoutProfiles(a) in ProfilesFinish(repo) <==>
              a == repo.knownArches - ProfileArches(repo.profiles) && a != {}
  {
    var r := ProfilesFinish(repo);
    var rest := CategoriesReport(repo) + MissingPaths(repo.profiles, repo.pathExists) + StatusReport(repo);
    assert forall f :: f in r <==> f in ArchReports(repo) || f in rest;
    assert forall f :: f in rest ==> !f.UnknownProfileArches? && !f.ArchesWithoutProfiles?;
  }

  /** Unknown statuses are reported only for the gentoo repository, and
      then exactly when some profile has a status outside stable, dev and
      exp. */
  lemma ProfilesFinishStatus(repo: RepoLayout)
    ensures forall s :: UnknownProfileStatus(s) in ProfilesFinish(repo) <==>
              repo.repoId == "gentoo" && s == ProfileStatuses(repo.profiles) - AcceptedStatus && s != {}
  {
    var r := ProfilesFinish(repo);
    assert r == (CategoriesReport(repo) + ArchReports(repo) + MissingPaths(repo.profiles, repo.pathExists)) + StatusReport(repo);
  }

  /** The two arch reports split the arches that are known or profiled
      but not both: each such arch is in exactly one of them, and no arch
      that is both known and profiled is reported. */
  lemma ArchReportsPartition(repo: RepoLayout, arch: string)
    ensures var r := ProfilesFinish(repo);
            && ((exists a :: UnknownProfileArches(a) in r && arch in a) <==>
                  (arch in ProfileArches(repo.profiles) && arch !in repo.knownArches))
            && ((exists a :: ArchesWithoutProfiles(a) in r && arch in a) <==>
                  (arch in repo.knownArches && arch !in ProfileArches(repo.profiles)))
  {
    ProfilesFinishArches(repo);
    var r := ProfilesFinish(repo);
    var unknownArches := ProfileArches(repo.profiles) - repo.knownArches;
    var withoutProfiles := repo.knownArches - ProfileArches(repo.profiles);
    if arch in unknownArches {
      assert UnknownProfileArches(unknownArches) in r;
    }
    if arch in withoutProfiles {
      assert ArchesWithoutProfiles(withoutProfiles) in r;
    }
  }
}
