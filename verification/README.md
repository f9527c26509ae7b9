# Visibility and repository-metadata checks, modelled in Dafny

This project models two groups of Gentoo QA checks.

- **The visibility check** (`pkgcore_checks/visibility.py`). For each
  package it runs a pre-pass that records dependency atoms matching
  nothing in the repository ("nonexistent dependencies"). It then looks at
  every stability keyword whose filter accepts the package and every
  profile registered under that keyword. For each, it reduces both
  dependency attributes to clauses in conjunctive normal form and reports
  the first clause none of whose atoms resolves ("nonsolvable
  dependencies"). This walk, `process_depset`, memoises per profile the
  atoms it found satisfied or insoluble, and shares a query cache of
  repository matches across packages. Packages that inherit a
  version-control eclass are reported when some profile under an
  unstable keyword can see them.
- **The repository-wide metadata checks** (`pkgcheck/repo_metadata.py`):
  - unused global USE flags;
  - unused licenses;
  - license groups naming unknown licenses;
  - the profiles/categories consistency report;
  - the Manifest report, which compares each package's fetchable files
    with the distfiles its Manifest lists.

  The model also covers the finding constructors that store sorted tuples
  and render `"%x"` checksums.

Files and modules:

| file | module | contents |
|---|---|---|
| `outcomes.dfy` | `Outcomes` | `Option` and `Result` |
| `atoms.dfy` | `Atoms` | atoms, package variants, dependency sets, clauses |
| `depset.dfy` | `Depset` | the per-profile clause walk and its memo-free reference semantics |
| `prepass.dfy` | `Prepass` | the nonexistent-dependency pre-pass and the shared state it keeps |
| `visibility.dfy` | `Visibility` | `check_pkg`, the reduction memo, `check_visibility_vcs`, `feed` |
| `ordering.dfy` | `Ordering` | Python's string ordering and `tuple(sorted(set))` |
| `hexfmt.dfy` | `HexFormat` | `"%x"` rendering and a parser that undoes it |
| `metadata.dfy` | `RepoMetadata` | the global-flag, license, license-group and profile checks |
| `manifest.dfy` | `Manifest` | `reformat_chksums`, the checksum findings, `ManifestReport.feed` |

Design decisions:

- **Collaborators become parameters.** The model does not include the
  package manager's repository matcher, virtuals index, visibility
  filters, keyword filters or dependency-set evaluator. Each one reaches
  the model as a function parameter.
- **Checks become pure functions.** Each check's mutable state (`self.flags`,
  `self.licenses`, the caches) is threaded through pure functions as an
  explicit value. Where the source's state may be `None`, it is an
  `Option`.
- **The `KeyError` is an error result.** `process_depset` raises `KeyError`
  when a non-virtual atom is missing from the query cache. The model
  returns this as a `Failure`. `Visibility.CheckPkgAgrees` proves that the
  pre-pass rules it out under three conditions:
  - the shared state tells the truth about the repository;
  - so does every profile's memo;
  - the reduction yields only the attribute's own atoms.

## Model

| member | source | states |
|---|---|---|
| Depset.ScanClause | pkgcore_checks/visibility.py:143-162 | Scanning one clause caches at most one accepted atom of the clause. Every newly cached atom resolves (virtuals match, or an accepted variant exists) and every newly insoluble atom does not. A rejected clause leaves all its atoms insoluble. A missing query-cache entry for a non-virtual atom is reported as the lookup error. |
| Depset.ProcessDepset | pkgcore_checks/visibility.py:136-166 | The result is empty, or the atom set of one clause holding no blocker. Its atoms are insoluble and none is cached. Both memos only grow, and they grow only by atoms that do or do not resolve as recorded. The lookup error names an atom of some clause that is absent from the query cache and neither virtual nor matched by the virtuals index. |
| Depset.ProcessDepsetAgrees | pkgcore_checks/visibility.py:136-166 | The memoised walk agrees with the memo-free reference. Start from a memo that tells the truth and a query cache that agrees with the matcher. Then the walk raises no error, returns exactly the atoms of the first clause that has no blocker and no resolving atom, and leaves a truthful memo. |
| Depset.ScanClauseAgrees | pkgcore_checks/visibility.py:143-162 | From truthful memos, a clause scan raises no error. It accepts exactly when some atom of the clause resolves, and it keeps the memos truthful. |
| Depset.FirstFailureIsFirst | pkgcore_checks/visibility.py:138-166 | A non-empty reference result is the atom set of a failing clause before which no clause fails. With no empty clause, the result is empty exactly when no clause fails. |
| Prepass.Visit | pkgcore_checks/visibility.py:64-77 | One atom of the pre-pass. A cached atom changes nothing. A globally insoluble atom is nonexistent and cached as matching nothing, without a query. Otherwise the atom is queried and its matches are cached. A zero-match atom that is neither a blocker nor a virtual is nonexistent, cached as empty and made globally insoluble. A zero-match blocker or virtual stays uncached. |
| Prepass.PrePass | pkgcore_checks/visibility.py:62-77 | The atoms reported nonexistent are exactly those not yet in the query cache that are either globally insoluble or match nothing and are neither blockers nor virtuals. Existing cache entries are kept. New entries hold the repository's matches, or nothing for globally insoluble atoms. The global insoluble set gains exactly the newly found nonexistent atoms. The matcher is only asked about atoms neither cached nor globally insoluble. |
| Prepass.PrePassKeepsSound | pkgcore_checks/visibility.py:62-77 | The pre-pass keeps the shared state truthful. Afterwards every atom of the attribute is in the query cache, except blockers and virtuals that match nothing. |
| Visibility.EvaluateMemo | pkgcore_checks/visibility.py:113-128 | The reduction memo stores the clauses under the key of (tristate flags, set flags) and keeps older entries. If the reduction depends on the flags only through that key, the memoised clauses equal a fresh reduction. |
| Visibility.CheckProfile | pkgcore_checks/visibility.py:109-133 | One profile yields at most two findings. Each is a nonsolvable-dependency finding for this package, keyword and profile, with a non-empty atom set, one of the two attribute names, and `masked` true exactly when the profile's visibility filter rejects the package. Only the profile's memo changes. |
| Visibility.CheckProfiles | pkgcore_checks/visibility.py:109-133 | Every finding belongs to one of the keyword's profiles. Every profile's memo only grows. |
| Visibility.CheckKeywords | pkgcore_checks/visibility.py:106-108 | A keyword whose filter rejects the package comes back unchanged. Every other keyword's profiles only gain memo entries. |
| Visibility.CheckKeywordsFindings | pkgcore_checks/visibility.py:106-133 | Every finding of the keyword loop comes from a profile under a keyword whose filter accepts the package. |
| Visibility.SecondPrePass | pkgcore_checks/visibility.py:84-101 | The run-time attribute reports as nonexistent those atoms a fresh pre-pass would report, minus every atom of the build-time attribute. |
| Visibility.CheckPkg | pkgcore_checks/visibility.py:60-133 | The findings start with the nonexistent-dependency findings: "depends" for the newly nonexistent build-time atoms, then "rdepends" for the newly nonexistent run-time atoms not among the build-time ones, each present only when non-empty. Everything after them is a nonsolvable-dependency finding. Profile memos only grow. |
| Visibility.CheckPkgAgrees | pkgcore_checks/visibility.py:60-133 | From truthful shared state and memos, and a reduction that yields only the attribute's own atoms, `check_pkg` never raises. Its findings are exactly the nonexistent-dependency findings of the two pre-passes followed by the memo-free reference findings of every profile under every accepting keyword, in order (`ReferencePkg`). The shared state is the one both pre-passes leave (`AfterPrePass`); the run-time pass keeps the build-time atoms in the query cache (`Prepass.CoversGrows`). All state stays truthful. |
| Visibility.StripTildes | pkgcore_checks/visibility.py:178 | The result is the keyword with its whole run of leading `~` removed. |
| Visibility.VcsProfiles | pkgcore_checks/visibility.py:55-57 | Under an unstable keyword, a finding appears exactly for each profile whose visibility filter accepts the package, carrying the keyword without its tildes. |
| Visibility.CheckVisibilityVcs | pkgcore_checks/visibility.py:51-57 | A finding is reported exactly for each profile under an unstable keyword whose visibility filter accepts the package. The keyword's own filter plays no part. |
| Visibility.Feed | pkgcore_checks/visibility.py:40-49 | Over a run of packages, every profile memo only grows and no keyword is dropped. |
| Visibility.CheckPkgKinds | pkgcore_checks/visibility.py:60-133 | `check_pkg` reports only nonexistent and nonsolvable dependencies. |
| Visibility.FeedVcsOnly | pkgcore_checks/visibility.py:45-48 | Every version-control finding of a feed names a package of the feed that inherits a version-control eclass (`IsVcs`: subversion, git, cvs or darcs). |
| Visibility.FeedAgrees | pkgcore_checks/visibility.py:40-49 | From truthful state, a whole feed raises no lookup error and keeps the shared state and every profile memo truthful. |
| Visibility.FeedFindings | pkgcore_checks/visibility.py:40-49 | From truthful state, the feed's findings are exactly `ReferenceFeed`: package by package, the version-control findings when the package inherits a version-control eclass, then its nonexistent-dependency findings, then the reference findings of every accepting keyword. Only the query cache and the global insoluble set carry over between packages. |
| Visibility.ReferenceFeedGrown | pkgcore_checks/visibility.py:40-57 | The naive findings, including the version-control ones, do not depend on the profiles' memos, so the memos a feed grows do not change them. |
| Ordering.BelowTransitive | pkgcheck/repo_metadata.py:31 | Python's string order is transitive. |
| Ordering.BelowTotal | pkgcheck/repo_metadata.py:31 | Two different strings are ordered one way or the other. |
| Ordering.LeastExists | pkgcheck/repo_metadata.py:31 | A non-empty set of strings has a member that sorts before all the others. |
| Ordering.SortedTuple | pkgcheck/repo_metadata.py:31 | `tuple(sorted(s))` holds every member of the set exactly once, in strictly ascending order. |
| HexFormat.HexNat | pkgcheck/repo_metadata.py:337 | `"%x"` of a natural number is non-empty lowercase hex with no leading zero unless the value is zero. |
| HexFormat.ParseFormat | pkgcheck/repo_metadata.py:337 | Reading `"%x" % v` back as hexadecimal gives `v`, including for negative values. |
| HexFormat.FormatHex | pkgcheck/repo_metadata.py:337 | `"%x" % v` is lowercase hex, with a `-` only for a negative value, and has no leading zero. |
| HexFormat.FormatUnique | pkgcheck/repo_metadata.py:337 | `"%x" % v` is the only text of that canonical shape that reads back as `v`. |
| RepoMetadata.MakeUnusedGlobalFlags | pkgcheck/repo_metadata.py:28-31 | The finding holds the unused flags as a strictly sorted tuple with the same members. |
| RepoMetadata.MakeUnusedLicenses | pkgcheck/repo_metadata.py:73-75 | The finding holds the unused licenses as a strictly sorted tuple with the same members. |
| RepoMetadata.DescWording | pkgcheck/repo_metadata.py:33-36 | The description says "flags"/"licenses" exactly when there is not exactly one name. |
| RepoMetadata.UnionAll | pkgcheck/repo_metadata.py:95-97 | The union holds exactly the names in some set of the sequence. |
| RepoMetadata.GlobalFlagsFeedAllRemoves | pkgcheck/repo_metadata.py:56-58 | Feeding packages to a started check removes every flag some package uses. |
| RepoMetadata.GlobalFlagsRun | pkgcheck/repo_metadata.py:52-63 | For a repository without masters: start, feed and finish (`GlobalFlagsStart`, `GlobalFlagsFeed`, `GlobalFlagsFinish`) report once the global flags, minus the unstated ones, that no package uses, and only if there are any. The state ends empty. |
| RepoMetadata.GlobalFlagsWithMasters | pkgcheck/repo_metadata.py:52-63 | For a repository with masters, the check never starts and reports nothing. |
| RepoMetadata.LicensesFeedAll | pkgcheck/repo_metadata.py:100-101 | Feeding a started license check leaves it started. |
| RepoMetadata.LicensesFeedAllRemoves | pkgcheck/repo_metadata.py:100-101 | Feeding packages removes every license some package uses. |
| RepoMetadata.LicensesRun | pkgcheck/repo_metadata.py:94-106 | Start, feed and finish (`LicensesStart`, `LicensesFeed`, `LicensesFinish`) run in turn. The report holds exactly the repository's licenses that no master defines and no package uses, and is present only if there are any. The state ends unset. |
| RepoMetadata.LicenseGroupsFinish | pkgcheck/repo_metadata.py:325-329 | There is at most one report per group. Each names a non-empty set of licenses, none of which the repository has. |
| RepoMetadata.LicenseGroupsReports | pkgcheck/repo_metadata.py:325-329 | A report appears exactly for each group that names a license the repository lacks, and it carries exactly those licenses. |
| RepoMetadata.ProfileStatuses | pkgcheck/repo_metadata.py:280-284 | The collected statuses are exactly the statuses of the listed profile entries. |
| RepoMetadata.EntryReports | pkgcheck/repo_metadata.py:281-283 | One arch's entries yield a nonexistent-path report exactly for the paths of the entries whose path does not exist. |
| RepoMetadata.MissingPaths | pkgcheck/repo_metadata.py:280-283 | The nonexistent-path reports are exactly for the paths of the listed profile entries that do not exist. |
| RepoMetadata.ProfilesFinish | pkgcheck/repo_metadata.py:263-290 | Only the five profile-report kinds appear. A path is reported exactly when some profile entry has it and it does not exist. |
| RepoMetadata.ProfilesFinishCategories | pkgcheck/repo_metadata.py:264-269 | `CategoriesReport`: an unknown-categories report appears exactly when a category directory is neither hidden, nor a false category, nor a known category. It holds exactly those directories. |
| RepoMetadata.ProfilesFinishArches | pkgcheck/repo_metadata.py:271-278 | `ArchReports`: the unknown-arch report holds exactly the profile arches not known. The arches-without-profiles report holds exactly the known arches without profiles. Each appears only when non-empty. |
| RepoMetadata.ProfilesFinishStatus | pkgcheck/repo_metadata.py:286-290 | `StatusReport`: an unknown-status report appears only for the "gentoo" repository. It holds exactly the statuses outside stable/dev/exp, and only when there are any. |
| RepoMetadata.ArchReportsPartition | pkgcheck/repo_metadata.py:271-278 | An arch is reported as unknown exactly when it has profiles but is not known. It is reported as lacking profiles exactly when it is known but has none. |
| Manifest.ReformatEntry | pkgcheck/repo_metadata.py:333-337 | A size entry keeps its values. Any other entry's values become hex text without leading zeros that reads back as the value, which by `HexFormat.FormatUnique` is exactly `"%x"` of it. |
| Manifest.ReformatChksums | pkgcheck/repo_metadata.py:332-337 | Same length and order. Checksum names are kept, sizes are unchanged, and every other value becomes the canonical hex text that reads back as the value. |
| Manifest.ReformatRoundTrip | pkgcheck/repo_metadata.py:332-337 | Every reformatted entry reads back as the entry it came from. |
| Manifest.InsertByChf | pkgcheck/repo_metadata.py:354-355 | Insertion adds exactly the one entry. |
| Manifest.InsertSorted | pkgcheck/repo_metadata.py:354-355 | Inserting into a sequence sorted by checksum name keeps it sorted. |
| Manifest.SortByChf | pkgcheck/repo_metadata.py:354-355 | Sorting by checksum name yields a permutation ordered by checksum name. |
| Manifest.MakeConflictingChksums | pkgcheck/repo_metadata.py:350-356 | The finding holds the reformatted checksums as a permutation sorted by name, and the other names as a strictly sorted tuple with the same members. |
| Manifest.MakeMissingChksum | pkgcheck/repo_metadata.py:371-375 | The finding holds the missing and existing checksum names as strictly sorted tuples with the same members. |
| Manifest.Report | pkgcheck/repo_metadata.py:457-466 | A note about missing checksums becomes a missing-checksum finding for the same file and package, with the missing and the existing checksum names as sorted tuples of exactly the noted sets. A note about unlisted files becomes a missing-Manifest finding with the same files. |
| Manifest.ScanFetchables | pkgcheck/repo_metadata.py:459-467 | Every fetchable's file becomes seen. Each note is for this package, and lists the required checksums the file lacks (non-empty) together with the ones it has. |
| Manifest.ScanFetchablesFiles | pkgcheck/repo_metadata.py:459-467 | Only fetchable files that the Manifest lists and that were not seen before are noted. |
| Manifest.ScanFetchablesDistinct | pkgcheck/repo_metadata.py:459-467 | No file is noted twice. |
| Manifest.ScanFetchablesSilent | pkgcheck/repo_metadata.py:459-467 | A file whose first unseen fetchable is missing from the Manifest, or has every required checksum, is not noted. |
| Manifest.ScanFetchablesNotes | pkgcheck/repo_metadata.py:459-467 | A file whose first unseen fetchable is listed and lacks a required checksum is noted with exactly the lacking and the existing checksum names. |
| Manifest.ScanFetchablesFrom | pkgcheck/repo_metadata.py:459-467 | Every note of a scan is the note for one of the package's fetchables: its file, the required checksums it lacks and the ones it has. That fetchable is the first of its file name in the package, and the name was not seen before the scan. |
| Manifest.FeedPkgs | pkgcheck/repo_metadata.py:445-467 | Every fetchable file of the group becomes seen. Missing-checksum notes concern files the Manifest lists. |
| Manifest.FeedPkgsDistinct | pkgcheck/repo_metadata.py:445-467 | No file is noted as lacking checksums twice in a group. |
| Manifest.FeedPkgsUnlisted | pkgcheck/repo_metadata.py:454-457 | Every unlisted-files note is for a package of the group and holds exactly its fetchable files that the Manifest does not list. |
| Manifest.FeedPkgsNotesUnlisted | pkgcheck/repo_metadata.py:454-457 | Every package with a fetchable file the Manifest does not list is noted. |
| Manifest.FeedPkgsFrom | pkgcheck/repo_metadata.py:445-467 | Every missing-checksum note of a group is the note for a fetchable of one of its packages. That fetchable is the first of its file name in the group, after the names seen before. |
| Manifest.FeedPkgsLacking | pkgcheck/repo_metadata.py:445-467 | A fetchable whose file no earlier package or earlier fetchable of its package fetched, which the Manifest lists and which lacks a required checksum, is noted. |
| Manifest.Reports | pkgcheck/repo_metadata.py:457-466 | Notes become reports one for one, in order. A missing-checksum note keeps its file, package and both checksum sets, as sorted tuples. An unlisted-files note keeps its package and files. |
| Manifest.FeedGroup | pkgcheck/repo_metadata.py:441-485 | A group compared with its first package's Manifest yields only missing-Manifest, missing-checksum and unknown-Manifest findings. Missing checksums concern listed distfiles. The unknown-Manifest finding (appended by `WithUnknown`) names the first package's category and package. It holds exactly the listed distfiles no package fetches, and appears whenever there are any. |
| Manifest.FeedGroupMissingChksum | pkgcheck/repo_metadata.py:459-467 | Every missing-checksum finding of a group is about a fetchable of one of its packages whose file the Manifest lists. That fetchable is the first of its file name in the group: no earlier package fetches the name, and no earlier fetchable of its package has it. The finding names, as sorted tuples, the required checksums that fetchable lacks (at least one) and the ones it has. |
| Manifest.FeedGroupLacking | pkgcheck/repo_metadata.py:459-467 | Conversely, a file whose first fetchable in the group is listed and lacks a required checksum is reported with exactly the missing-checksum finding for that fetchable. |
| Manifest.FeedGroupDistinct | pkgcheck/repo_metadata.py:459-467 | A group reports no file as lacking checksums twice. |
| Manifest.FeedGroupMissingManifest | pkgcheck/repo_metadata.py:454-457 | Every package of a group with fetchable files the Manifest does not list is reported with exactly those files. |
| Manifest.GroupByRepo | pkgcheck/repo_metadata.py:440 | `groupby` splits the packages into non-empty maximal runs from one repository. Concatenated, the runs give back the input. |
| Manifest.FeedGroups | pkgcheck/repo_metadata.py:440-485 | A finding appears exactly when it is a finding of one of the groups, compared against that group's repository's required checksums (`GroupsFindings`, whose i-th entry is that group's `FeedGroup` by `GroupsFindingsAt`). No conflicting-checksum finding is ever produced. |
| Manifest.ManifestFeed | pkgcheck/repo_metadata.py:438-485 | A finding appears exactly when it is a finding of one run of `GroupByRepo` over the packages. No conflicting-checksum finding is ever produced, and an empty feed reports nothing. |
| Manifest.SingleRepoFeed | pkgcheck/repo_metadata.py:438-485 | When every package comes from one repository, the feed is the single group compared against the first package's Manifest. |
| Manifest.SingleGroup | pkgcheck/repo_metadata.py:440 | Packages all from one repository form one group. |

## Left out

- The package manager is not modelled:
  - evaluation of a dependency set under flags (`evaluate_depset`, `cnf_solutions`);
  - repository matching (`itermatch`);
  - the virtuals index;
  - keyword and visibility filters.

  Each is a function parameter. `iflatten_instance(pkg.depends, atom)` is
  the `DepSet.atoms` sequence. `known_conditionals` is `DepSet.conditionals`.
- Visibility.CheckPkgAgrees: assumes the package manager is well behaved.
  The reduction must yield only atoms of its own attribute, and it must
  depend on the flags only through the memo key. The source relies on
  both without stating them.
- Depset.ProcessDepset: an empty clause is modelled as written. It returns
  an empty result and stops the walk. `Depset.FirstFailureIsFirst` states
  the if-and-only-if only for clause lists without empty clauses.
- Python's `hash(node)` is modelled away. Caches are keyed by the atom
  itself, as if the hash were injective.
- `caching_iter` laziness is not modelled. The query cache holds the
  match sequence.
- Findings reported before a `KeyError` aborts `check_pkg` are not
  returned. The error result carries only the atom.
- A nonexistent atom is reported only by the first package, and that
  package's first attribute, that uses it while the query cache lives.
  Both pre-passes skip atoms already in the query cache
  (visibility.py:64 and 86). `Visibility.SecondPrePass` states this.
- `keywords_filter` and `profile_filters` are merged into one sequence of
  keywords. The source iterates `keywords_filter` and indexes
  `profile_filters` with the same keys, so a key missing from the
  profiles is not modelled. Dictionary iteration order is the sequence
  order.
- `VisibilityReport.__init__`/`start`/`finish` only store or clear
  configuration; `arches` is never read by the modelled operations.
- Rendering is left out:
  - `to_str` and `to_xml`;
  - the `short_desc` of findings that hold an unordered set (unknown
    categories, arches and statuses), because joining a set has no
    defined order;
  - the `short_desc` of the missing-Manifest and unknown-Manifest
    findings. These join the sorted file names (repo_metadata.py:397 and
    414), so they are deterministic, but their text is plain rendering.

  The plural wording of the two tuple-based descriptions is modelled.
- UnusedMirrorsCheck is left out.
- `listdir_dirs` is the `RepoLayout.dirs` set and `os.path.exists` is the
  `pathExists` predicate. File-system access is not modelled.
- Directory names are assumed non-empty. The source's `x[0]` would raise
  on an empty name, which a directory listing never yields.
- RepoMetadata.LicensesFeed: requires a started check. The source raises
  `AttributeError` when `feed` runs before `start` or after `finish`.
- RepoMetadata.EntryReports: states which paths are reported, not how
  often or in what order. The source reports once per entry, in entry
  order, duplicates included.
- RepoMetadata.MissingPaths: likewise states which paths are reported,
  not their count or order.
- Visibility.VcsProfiles: states which findings appear, not that there
  is exactly one per accepting profile, in profile order.
- RepoMetadata.ProfilesFinish: its own contract names the report kinds
  and states exactly which paths are reported. The exact contents of
  the other reports are stated by `ProfilesFinishCategories`,
  `ProfilesFinishArches`, `ProfilesFinishStatus` and
  `ArchReportsPartition`.
- Checksum values are not modelled by the Manifest feed. A fetchable
  carries only the names of its checksums. The values matter only to the
  conflicting-checksum comparison (lines 468-481), which cannot fire:
  `self.seen_checksums` is never written, because line 470 binds a
  local. That branch would also fail if it ran: it passes a dictionary
  where `reformat_chksums` expects triples. It also calls
  `reporter.add_result` (repo_metadata.py:476), while every other report
  in the file goes through `add_report`. The feed model leaves it out, and
  `Manifest.MakeConflictingChksums` models only the finding's
  constructor.
- The fetchables of a package are a set in the source, iterated in an
  unspecified order. The model takes them as a sequence in that
  iteration order. When two fetchables share a file name, the first one
  in the sequence is the one examined.
- `release_cached_data`, the USE filter over fetchables and the
  `required_checksums` default dictionary are left out. The required
  checksums are a function from repository to set.
