/** The Manifest report: checksum rendering for its findings, and the
    per-package-group comparison of each package's fetchable files with
    the distfiles its Manifest lists. */
module Manifest {
  import opened Atoms
  import opened Ordering
  import opened HexFormat

  /** one (chf, value, value) triple as the checksum findings carry it */
  datatype ChksumEntry = ChksumEntry(chf: string, first: int, second: int)

  /** a checksum value after rendering: sizes stay numbers, hashes
      become "%x" text */
  datatype ChksumValue = Raw(n: int) | Hex(text: string)

  datatype Reformatted = Reformatted(chf: string, first: ChksumValue, second: ChksumValue)

  predicate HexText(s: string) {
    |s| > 0 && forall i :: 0 <= i < |s| ==> IsHexDigit(s[i]) || (i == 0 && s[i] == '-')
  }

  /** `v` is how `n` renders: unchanged for a size, otherwise hex text
      in the shape "%x" gives, without leading zeros, that reads back as
      `n` (by `HexFormat.FormatUnique` there is one such text) */
  predicate Renders(v: ChksumValue, n: int, isSize: bool) {
    if isSize then v == Raw(n) else v.Hex? && HexText(v.text) && CanonicalHex(v.text) && ParseHex(v.text) == n
  }

  function ReformatEntry(e: ChksumEntry): (r: Reformatted)
    ensures r.chf == e.chf
    ensures Renders(r.first, e.first, e.chf == "size") && Renders(r.second, e.second, e.chf == "size")
  {
    if e.chf == "size" then Reformatted(e.chf, Raw(e.first), Raw(e.second))
    else
      ParseFormat(e.first);
      ParseFormat(e.second);
      Reformatted(e.chf, Hex(FormatHex(e.first)), Hex(FormatHex(e.second)))
  }

  /** reformat_chksums: same entries in the same order, sizes untouched,
      every other value rendered as hex that reads back as the value */
  function ReformatChksums(entries: seq<ChksumEntry>): (r: seq<Reformatted>)
    ensures |r| == |entries|
    ensures forall i :: 0 <= i < |r| ==>
              && r[i].chf == entries[i].chf
              && Renders(r[i].first, entries[i].first, entries[i].chf == "size")
              && Renders(r[i].second, entries[i].second, entries[i].chf == "size")
  {
    seq(|entries|, i requires 0 <= i < |entries| => ReformatEntry(entries[i]))
  }

  /** reading a rendered value back */
  function Unrender(v: ChksumValue): int
    requires v.Hex? ==> HexText(v.text)
  {
    if v.Raw? then v.n else ParseHex(v.text)
  }

  /** Rendering loses nothing: each reformatted entry reads back as the
      entry it came from. */
  lemma ReformatRoundTrip(entries: seq<ChksumEntry>, i: int)
    requires 0 <= i < |entries|
    ensures var r := ReformatChksums(entries)[i];
            ChksumEntry(r.chf, Unrender(r.first), Unrender(r.second)) == entries[i]
  {
  }

  predicate ChfSorted(s: seq<Reformatted>) {
    forall i, j :: 0 <= i < j < |s| ==> !Below(s[j].chf, s[i].chf)
  }

  /** insert after every entry whose chf is not above x's, which keeps
      the sort stable */
  function InsertByChf(x: Reformatted, s: seq<Reformatted>): (r: seq<Reformatted>)
    ensures multiset(r) == multiset(s) + multiset{x}
    decreases |s|
  {
    if s == [] then [x]
    else if Below(x.chf, s[0].chf) then [x] + s
    else
      assert s == [s[0]] + s[1..];
      [s[0]] + InsertByChf(x, s[1..])
  }

  lemma {:induction false} InsertSorted(x: Reformatted, s: seq<Reformatted>)
    requires ChfSorted(s)
    ensures ChfSorted(InsertByChf(x, s))
    decreases |s|
  {
    if s == [] {
    } else if Below(x.chf, s[0].chf) {
      forall j | 0 <= j < |s| ensures !Below(s[j].chf, x.chf) {
        if Below(s[j].chf, x.chf) {
          BelowTransitive(s[j].chf, x.chf, s[0].chf);
          if j == 0 {
            BelowIrreflexive(s[0].chf);
          }
          assert false;
        }
      }
      var r := [x] + s;
      assert forall i :: 0 < i < |r| ==> r[i] == s[i - 1];
    } else {
      InsertSorted(x, s[1..]);
      var rest := InsertByChf(x, s[1..]);
      forall j | 0 <= j < |rest| ensures !Below(rest[j].chf, s[0].chf) {
        assert rest[j] in multiset(rest);
        if rest[j] != x {
          assert rest[j] in multiset(s[1..]);
          var k :| 0 <= k < |s[1..]| && s[1..][k] == rest[j];
          assert s[k + 1] == rest[j];
        }
      }
      var r := [s[0]] + rest;
      assert forall i :: 0 < i < |r| ==> r[i] == rest[i - 1];
    }
  }

  /** sorted(..., key=itemgetter(0)) */
  function SortByChf(s: seq<Reformatted>): (r: seq<Reformatted>)
    ensures ChfSorted(r)
    ensures multiset(r) == multiset(s)
    decreases |s|
  {
    if s == [] then []
    else
      assert s == s[..|s| - 1] + [s[|s| - 1]];
      InsertSorted(s[|s| - 1], SortByChf(s[..|s| - 1]));
      InsertByChf(s[|s| - 1], SortByChf(s[..|s| - 1]))
  }

  datatype ManifestFinding =
    | ConflictingChksums(cpv: Cpv, filename: string, chksums: seq<Reformatted>, others: seq<string>)
    | MissingChksum(cpv: Cpv, filename: string, missing: seq<string>, existing: seq<string>)
    | MissingManifest(cpv: Cpv, files: set<string>)
    | UnknownManifest(category: string, package: string, files: set<string>)

  /** ConflictingChksums keeps its checksums reformatted and sorted by
      checksum name, and the other names as a sorted tuple */
  function MakeConflictingChksums(cpv: Cpv, filename: string, chksums: seq<ChksumEntry>, others: set<string>)
    : (r: ManifestFinding)
    ensures r.ConflictingChksums? && r.cpv == cpv && r.filename == filename
    ensures ChfSorted(r.chksums) && multiset(r.chksums) == multiset(ReformatChksums(chksums))
    ensures StrictlySorted(r.others) && forall x :: x in r.others <==> x in others
  {
    ConflictingChksums(cpv, filename, SortByChf(ReformatChksums(chksums)), SortedTuple(others))
  }

  /** `r` reports that `filename` of `cpv` lacks the checksums
      `missing` and has `existing`, each as a sorted tuple */
  ghost predicate IsMissingChksum(r: ManifestFinding, cpv: Cpv, filename: string, missing: set<string>, existing: set<string>) {
    && r.MissingChksum? && r.cpv == cpv && r.filename == filename
    && StrictlySorted(r.missing) && (forall x :: x in r.missing <==> x in missing)
    && StrictlySorted(r.existing) && (forall x :: x in r.existing <==> x in existing)
  }

  /** MissingChksum keeps both name sets as sorted tuples */
  function MakeMissingChksum(cpv: Cpv, filename: string, missing: set<string>, existing: set<string>)
    : (r: ManifestFinding)
    ensures IsMissingChksum(r, cpv, filename, missing, existing)
    ensures |r.missing| == |missing| && |r.existing| == |existing|
  {
    MissingChksum(cpv, filename, SortedTuple(missing), SortedTuple(existing))
  }

  /** A fetchable file with the names of the checksums known for it.
      The values matter only to the conflicting-checksum comparison,
      which never runs. */
  datatype Fetchable = Fetchable(filename: string, chksums: set<string>)

  /** A package as the Manifest report sees it: its repository, the
      distfiles its Manifest lists, and its fetchables (every USE
      branch). */
  datatype ManifestPkg = ManifestPkg(cpv: Cpv, repo: string, distfiles: set<string>, fetchables: seq<Fetchable>)

  function FetchableFiles(fs: seq<Fetchable>): set<string> {
    set f | f in fs :: f.filename
  }

  /** every fetchable file of every package */
  function GroupFiles(pkgs: seq<ManifestPkg>): set<string>
    decreases |pkgs|
  {
    if pkgs == [] then {} else FetchableFiles(pkgs[0].fetchables) + GroupFiles(pkgs[1..])
  }

  /** What the feed notes, in report order, before a report is built
      from it: fetchable files a package's Manifest does not list, or a
      file lacking required checksums together with the ones it has. */
  datatype Note =
    | Unlisted(cpv: Cpv, files: set<string>)
    | Lacking(cpv: Cpv, filename: string, missing: set<string>, existing: set<string>)

  /** the report a note becomes */
  function Report(n: Note): (r: ManifestFinding)
    ensures r.MissingChksum? <==> n.Lacking?
    ensures n.Lacking? ==> IsMissingChksum(r, n.cpv, n.filename, n.missing, n.existing)
    ensures n.Unlisted? ==> r == MissingManifest(n.cpv, n.files)
  {
    match n
    case Unlisted(cpv, files) => MissingManifest(cpv, files)
    case Lacking(cpv, filename, missing, existing) => MakeMissingChksum(cpv, filename, missing, existing)
  }

  datatype Scan = Scan(notes: seq<Note>, seen: set<string>)

  /** no file is noted as lacking checksums twice */
  predicate DistinctFiles(notes: seq<Note>) {
    forall k, l :: 0 <= k < l < |notes| && notes[k].Lacking? && notes[l].Lacking? ==>
      notes[k].filename != notes[l].filename
  }

  /** Two runs of notes without repeats stay without repeats when
      joined, if a set `s` separates their files. */
  lemma DistinctConcat(a: seq<Note>, b: seq<Note>, s: set<string>)
    requires DistinctFiles(a) && DistinctFiles(b)
    requires forall n :: n in a && n.Lacking? ==> n.filename in s
    requires forall n :: n in b && n.Lacking? ==> n.filename !in s
    ensures DistinctFiles(a + b)
  {
    var ab := a + b;
    forall k, l | 0 <= k < l < |ab| && ab[k].Lacking? && ab[l].Lacking? ensures ab[k].filename != ab[l].filename {
      if k < |a| && l >= |a| {
        assert ab[k] in a && ab[l] in b;
      } else if k >= |a| {
        assert ab[k] == b[k - |a|] && ab[l] == b[l - |a|];
      }
    }
  }

  lemma JoinDistinct(noted: seq<Note>, a: seq<Note>, b: seq<Note>, s: set<string>)
    requires forall n :: n in noted ==> !n.Lacking?
    requires DistinctFiles(a) && DistinctFiles(b)
    requires forall n :: n in a && n.Lacking? ==> n.filename in s
    requires forall n :: n in b && n.Lacking? ==> n.filename !in s
    ensures DistinctFiles(noted + a + b)
  {
    DistinctConcat(a, b, s);
    DistinctConcat(noted, a + b, {});
    assert noted + (a + b) == noted + a + b;
  }

  /** The inner loop over one package's fetchables: each file name is
      looked at once per group; its first fetchable is noted when the
      Manifest lists it but it lacks a required checksum. */
  function ScanFetchables(cpv: Cpv, fs: seq<Fetchable>, missingManifests: set<string>, required: set<string>,
                          seen: set<string>): (r: Scan)
    ensures r.seen == seen + FetchableFiles(fs)
    ensures forall n :: n in r.notes ==>
              n.Lacking? && n.cpv == cpv && n.missing == required - n.existing && n.missing != {}
    decreases |fs|
  {
    if fs == [] then Scan([], seen)
    else
      var f := fs[0];
      assert FetchableFiles(fs) == {f.filename} + FetchableFiles(fs[1..]);
      if f.filename in seen then ScanFetchables(cpv, fs[1..], missingManifests, required, seen)
      else
        var missing := required - f.chksums;
        var here := if f.filename !in missingManifests && missing != {}
                    then [Lacking(cpv, f.filename, missing, f.chksums)] else [];
        var rest := ScanFetchables(cpv, fs[1..], missingManifests, required, seen + {f.filename});
        Scan(here + rest.notes, rest.seen)
  }

  /** the note for fetchable `f` of `cpv` lacking required checksums */
  function LackingOf(cpv: Cpv, f: Fetchable, required: set<string>): Note {
    Lacking(cpv, f.filename, required - f.chksums, f.chksums)
  }

  /** what the first fetchable of a scan contributes: a note when its
      file is new, listed in the Manifest and lacks a required checksum */
  function Head(cpv: Cpv, f: Fetchable, missingManifests: set<string>, required: set<string>,
                seen: set<string>): seq<Note>
  {
    if f.filename !in seen && f.filename !in missingManifests && required - f.chksums != {}
    then [LackingOf(cpv, f, required)] else []
  }

  /** One step of a scan, with the seen set always grown by the first
      file name (a no-op when it was already seen). */
  lemma ScanUnfold(cpv: Cpv, fs: seq<Fetchable>, missingManifests: set<string>, required: set<string>,
                   seen: set<string>)
    requires fs != []
    ensures ScanFetchables(cpv, fs, missingManifests, required, seen).notes
            == Head(cpv, fs[0], missingManifests, required, seen)
               + ScanFetchables(cpv, fs[1..], missingManifests, required, seen + {fs[0].filename}).notes
  {
    if fs[0].filename in seen {
      assert seen + {fs[0].filename} == seen;
    }
  }

  /** Every file a scan notes is one of the package's fetchables that the
      Manifest lists and that was not seen before. */
  lemma {:induction false} ScanFetchablesFiles(cpv: Cpv, fs: seq<Fetchable>, missingManifests: set<string>,
                                               required: set<string>, seen: set<string>)
    ensures forall n :: n in ScanFetchables(cpv, fs, missingManifests, required, seen).notes ==>
              n.filename in FetchableFiles(fs) - missingManifests - seen
    decreases |fs|
  {
    if fs != [] {
      var f := fs[0];
      var seen' := seen + {f.filename};
      assert FetchableFiles(fs) == {f.filename} + FetchableFiles(fs[1..]);
      ScanUnfold(cpv, fs, missingManifests, required, seen);
      ScanFetchablesFiles(cpv, fs[1..], missingManifests, required, seen');
    }
  }

  /** No file is noted twice by a scan. */
  lemma {:induction false} ScanFetchablesDistinct(cpv: Cpv, fs: seq<Fetchable>, missingManifests: set<string>,
                                                  required: set<string>, seen: set<string>)
    ensures DistinctFiles(ScanFetchables(cpv, fs, missingManifests, required, seen).notes)
    decreases |fs|
  {
    if fs != [] {
      var f := fs[0];
      var seen' := seen + {f.filename};
      ScanUnfold(cpv, fs, missingManifests, required, seen);
      ScanFetchablesDistinct(cpv, fs[1..], missingManifests, required, seen');
      ScanFetchablesFiles(cpv, fs[1..], missingManifests, required, seen');
      DistinctConcat(Head(cpv, f, missingManifests, required, seen),
                     ScanFetchables(cpv, fs[1..], missingManifests, required, seen').notes, {f.filename});
    }
  }

  /** A file name is not noted when its first fetchable not yet seen is
      missing from the Manifest or has every required checksum. */
  lemma {:induction false} ScanFetchablesSilent(cpv: Cpv, fs: seq<Fetchable>, missingManifests: set<string>,
                                                required: set<string>, seen: set<string>, i: int)
    requires 0 <= i < |fs| && fs[i].filename !in seen
    requires forall j :: 0 <= j < i ==> fs[j].filename != fs[i].filename
    requires fs[i].filename in missingManifests || required - fs[i].chksums == {}
    ensures forall n :: n in ScanFetchables(cpv, fs, missingManifests, required, seen).notes ==>
              n.filename != fs[i].filename
    decreases |fs|
  {
    var f := fs[0];
    var seen' := seen + {f.filename};
    ScanUnfold(cpv, fs, missingManifests, required, seen);
    var head := Head(cpv, f, missingManifests, required, seen);
    if i == 0 {
      assert head == [];
      ScanFetchablesFiles(cpv, fs[1..], missingManifests, required, seen');
    } else {
      assert fs[i] == fs[1..][i - 1];
      assert forall n :: n in head ==> n.filename == f.filename;
      ScanFetchablesSilent(cpv, fs[1..], missingManifests, required, seen', i - 1);
    }
  }

  /** The first fetchable of a file name not yet seen, listed in the
      Manifest and lacking a required checksum, is noted with the
      required checksums it lacks and the ones it has. */
  lemma {:induction false} ScanFetchablesNotes(cpv: Cpv, fs: seq<Fetchable>, missingManifests: set<string>,
                                               required: set<string>, seen: set<string>, i: int)
    requires 0 <= i < |fs| && fs[i].filename !in seen
    requires forall j :: 0 <= j < i ==> fs[j].filename != fs[i].filename
    requires fs[i].filename !in missingManifests && required - fs[i].chksums != {}
    ensures Lacking(cpv, fs[i].filename, required - fs[i].chksums, fs[i].chksums)
              in ScanFetchables(cpv, fs, missingManifests, required, seen).notes
    decreases |fs|
  {
    var f := fs[0];
    var seen' := seen + {f.filename};
    ScanUnfold(cpv, fs, missingManifests, required, seen);
    var head := Head(cpv, f, missingManifests, required, seen);
    var rest := ScanFetchables(cpv, fs[1..], missingManifests, required, seen').notes;
    if i == 0 {
      assert (head + rest)[0] == head[0];
    } else {
      assert fs[i] == fs[1..][i - 1];
      ScanFetchablesNotes(cpv, fs[1..], missingManifests, required, seen', i - 1);
      assert (head + rest)[|head| + |rest| - |rest|..] == rest;
    }
  }

  /** `fs[i]` is the first fetchable of its file name in `fs`, and that
      name was not seen before the scan */
  predicate FirstUnseen(fs: seq<Fetchable>, i: int, seen: set<string>) {
    && 0 <= i < |fs| && fs[i].filename !in seen
    && forall l :: 0 <= l < i ==> fs[l].filename != fs[i].filename
  }

  /** Every note of a scan is the note for one of its fetchables, the
      first of its file name and one not seen before. */
  lemma {:induction false} ScanFetchablesFrom(cpv: Cpv, fs: seq<Fetchable>, missingManifests: set<string>,
                                              required: set<string>, seen: set<string>)
    ensures forall n :: n in ScanFetchables(cpv, fs, missingManifests, required, seen).notes ==>
              exists i :: FirstUnseen(fs, i, seen) && n == LackingOf(cpv, fs[i], required)
    decreases |fs|
  {
    if fs != [] {
      var seen' := seen + {fs[0].filename};
      ScanUnfold(cpv, fs, missingManifests, required, seen);
      ScanFetchablesFrom(cpv, fs[1..], missingManifests, required, seen');
      var head := Head(cpv, fs[0], missingManifests, required, seen);
      var rest := ScanFetchables(cpv, fs[1..], missingManifests, required, seen').notes;
      forall n | n in head + rest ensures exists i :: FirstUnseen(fs, i, seen) && n == LackingOf(cpv, fs[i], required) {
        if n in head {
          assert FirstUnseen(fs, 0, seen) && n == LackingOf(cpv, fs[0], required);
        } else {
          var i :| FirstUnseen(fs[1..], i, seen') && n == LackingOf(cpv, fs[1..][i], required);
          FirstUnseenTail(fs, i, seen);
        }
      }
    }
  }

  /** the first unseen fetchable of a scan's tail, after the head's name
      has been seen, is the first unseen one of the whole scan */
  lemma FirstUnseenTail(fs: seq<Fetchable>, i: int, seen: set<string>)
    requires fs != [] && FirstUnseen(fs[1..], i, seen + {fs[0].filename})
    ensures FirstUnseen(fs, i + 1, seen) && fs[i + 1] == fs[1..][i]
  {
    forall l | 0 <= l < i + 1 ensures fs[l].filename != fs[i + 1].filename {
      if l > 0 {
        assert fs[l] == fs[1..][l - 1];
      }
    }
  }

  /** The loop over a group's packages: a package whose fetchable files
      are not all in the Manifest is noted with exactly those files, then
      its fetchables are scanned. */
  function FeedPkgs(pkgs: seq<ManifestPkg>, manifests: set<string>, required: set<string>, seen: set<string>)
    : (r: Scan)
    ensures r.seen == seen + GroupFiles(pkgs)
    ensures forall n :: n in r.notes && n.Lacking? ==> n.filename in manifests - seen && n.missing != {}
    decreases |pkgs|
  {
    if pkgs == [] then Scan([], seen)
    else
      var pkg := pkgs[0];
      var missingManifests := FetchableFiles(pkg.fetchables) - manifests;
      var noted := if missingManifests != {} then [Unlisted(pkg.cpv, missingManifests)] else [];
      var scan := ScanFetchables(pkg.cpv, pkg.fetchables, missingManifests, required, seen);
      var rest := FeedPkgs(pkgs[1..], manifests, required, scan.seen);
      ScanFetchablesFiles(pkg.cpv, pkg.fetchables, missingManifests, required, seen);
      Scan(noted + scan.notes + rest.notes, rest.seen)
  }

  /** No file is noted as lacking checksums twice within a group. */
  lemma {:induction false} FeedPkgsDistinct(pkgs: seq<ManifestPkg>, manifests: set<string>, required: set<string>,
                                            seen: set<string>)
    ensures DistinctFiles(FeedPkgs(pkgs, manifests, required, seen).notes)
    decreases |pkgs|
  {
    if pkgs != [] {
      var pkg := pkgs[0];
      var missingManifests := FetchableFiles(pkg.fetchables) - manifests;
      var noted := if missingManifests != {} then [Unlisted(pkg.cpv, missingManifests)] else [];
      var scan := ScanFetchables(pkg.cpv, pkg.fetchables, missingManifests, required, seen);
      var rest := FeedPkgs(pkgs[1..], manifests, required, scan.seen);
      FeedPkgsDistinct(pkgs[1..], manifests, required, scan.seen);
      ScanFetchablesDistinct(pkg.cpv, pkg.fetchables, missingManifests, required, seen);
      ScanFetchablesFiles(pkg.cpv, pkg.fetchables, missingManifests, required, seen);
      JoinDistinct(noted, scan.notes, rest.notes, scan.seen);
      assert FeedPkgs(pkgs, manifests, required, seen).notes == noted + scan.notes + rest.notes;
    }
  }

  /** Every package noted as unlisted is one of the group's, noted with
      exactly its fetchable files that the Manifest does not list. */
  lemma {:induction false} FeedPkgsUnlisted(pkgs: seq<ManifestPkg>, manifests: set<string>, required: set<string>,
                                            seen: set<string>, n: Note)
    requires n in FeedPkgs(pkgs, manifests, required, seen).notes && n.Unlisted?
    ensures exists p :: p in pkgs && n == Unlisted(p.cpv, FetchableFiles(p.fetchables) - manifests)
    ensures n.files != {}
    decreases |pkgs|
  {
    var pkg := pkgs[0];
    var missingManifests := FetchableFiles(pkg.fetchables) - manifests;
    var noted := if missingManifests != {} then [Unlisted(pkg.cpv, missingManifests)] else [];
    var scan := ScanFetchables(pkg.cpv, pkg.fetchables, missingManifests, required, seen);
    var rest := FeedPkgs(pkgs[1..], manifests, required, scan.seen);
    assert FeedPkgs(pkgs, manifests, required, seen).notes == noted + scan.notes + rest.notes;
    if n in rest.notes {
      FeedPkgsUnlisted(pkgs[1..], manifests, required, scan.seen, n);
    } else {
      assert n in noted;
      assert pkg in pkgs;
    }
  }

  /** Every package whose fetchable files are not all in the Manifest is
      noted. */
  lemma {:induction false} FeedPkgsNotesUnlisted(pkgs: seq<ManifestPkg>, manifests: set<string>,
                                                 required: set<string>, seen: set<string>, p: ManifestPkg)
    requires p in pkgs && FetchableFiles(p.fetchables) - manifests != {}
    ensures Unlisted(p.cpv, FetchableFiles(p.fetchables) - manifests) in FeedPkgs(pkgs, manifests, required, seen).notes
    decreases |pkgs|
  {
    var pkg := pkgs[0];
    var missingManifests := FetchableFiles(pkg.fetchables) - manifests;
    var noted := if missingManifests != {} then [Unlisted(pkg.cpv, missingManifests)] else [];
    var scan := ScanFetchables(pkg.cpv, pkg.fetchables, missingManifests, required, seen);
    var rest := FeedPkgs(pkgs[1..], manifests, required, scan.seen);
    assert FeedPkgs(pkgs, manifests, required, seen).notes == noted + scan.notes + rest.notes;
    if p != pkg {
      FeedPkgsNotesUnlisted(pkgs[1..], manifests, required, scan.seen, p);
    }
  }

  /** `n` is the note for one of the fetchables of one of `pkgs`, the
      first of its file name in the group and one not seen before it */
  ghost predicate LackingFrom(n: Note, pkgs: seq<ManifestPkg>, required: set<string>, seen: set<string>) {
    exists j, i :: && 0 <= j < |pkgs| && FirstUnseen(pkgs[j].fetchables, i, seen + GroupFiles(pkgs[..j]))
                   && n == LackingOf(pkgs[j].cpv, pkgs[j].fetchables[i], required)
  }

  /** Every note about missing checksums names the first fetchable of its
      file name in the group, one not seen before, with the required
      checksums it lacks and the ones it has. */
  lemma {:induction false} FeedPkgsFrom(pkgs: seq<ManifestPkg>, manifests: set<string>, required: set<string>,
                                        seen: set<string>)
    ensures forall n :: n in FeedPkgs(pkgs, manifests, required, seen).notes && n.Lacking? ==>
              LackingFrom(n, pkgs, required, seen)
    decreases |pkgs|
  {
    if pkgs != [] {
      var pkg := pkgs[0];
      var missingManifests := FetchableFiles(pkg.fetchables) - manifests;
      var noted := if missingManifests != {} then [Unlisted(pkg.cpv, missingManifests)] else [];
      var scan := ScanFetchables(pkg.cpv, pkg.fetchables, missingManifests, required, seen);
      var rest := FeedPkgs(pkgs[1..], manifests, required, scan.seen);
      assert FeedPkgs(pkgs, manifests, required, seen).notes == noted + scan.notes + rest.notes;
      ScanFetchablesFrom(pkg.cpv, pkg.fetchables, missingManifests, required, seen);
      FeedPkgsFrom(pkgs[1..], manifests, required, scan.seen);
      forall n | n in noted + scan.notes + rest.notes && n.Lacking? ensures LackingFrom(n, pkgs, required, seen) {
        if n in scan.notes {
          var i :| FirstUnseen(pkg.fetchables, i, seen) && n == LackingOf(pkg.cpv, pkg.fetchables[i], required);
          LackingFromHead(n, pkgs, required, seen, i);
        } else if n in rest.notes {
          LackingFromCons(n, pkgs, required, seen);
        }
      }
    }
  }

  /** a note for the first package's first unseen fetchable of a name */
  lemma LackingFromHead(n: Note, pkgs: seq<ManifestPkg>, required: set<string>, seen: set<string>, i: int)
    requires pkgs != [] && FirstUnseen(pkgs[0].fetchables, i, seen)
    requires n == LackingOf(pkgs[0].cpv, pkgs[0].fetchables[i], required)
    ensures LackingFrom(n, pkgs, required, seen)
  {
    assert pkgs[..0] == [];
    assert seen + GroupFiles(pkgs[..0]) == seen;
  }

  /** a note from the later packages, once the first package's files
      have been seen */
  lemma LackingFromCons(n: Note, pkgs: seq<ManifestPkg>, required: set<string>, seen: set<string>)
    requires pkgs != [] && LackingFrom(n, pkgs[1..], required, seen + FetchableFiles(pkgs[0].fetchables))
    ensures LackingFrom(n, pkgs, required, seen)
  {
    var seen' := seen + FetchableFiles(pkgs[0].fetchables);
    var j, i :| && 0 <= j < |pkgs[1..]| && FirstUnseen(pkgs[1..][j].fetchables, i, seen' + GroupFiles(pkgs[1..][..j]))
                && n == LackingOf(pkgs[1..][j].cpv, pkgs[1..][j].fetchables[i], required);
    GroupFilesPrefix(pkgs, j + 1);
    assert pkgs[1..][j] == pkgs[j + 1];
    assert seen' + GroupFiles(pkgs[1..][..j]) == seen + GroupFiles(pkgs[..j + 1]);
  }

  /** the files of a non-empty prefix: the first package's, then the
      rest of the prefix's */
  lemma GroupFilesPrefix(pkgs: seq<ManifestPkg>, j: int)
    requires 0 < j <= |pkgs|
    ensures GroupFiles(pkgs[..j]) == FetchableFiles(pkgs[0].fetchables) + GroupFiles(pkgs[1..][..j - 1])
  {
    assert pkgs[..j][1..] == pkgs[1..][..j - 1];
  }

  /** The first fetchable of a file name in the group, when the file is
      listed and lacks a required checksum, is noted. */
  lemma {:induction false} FeedPkgsLacking(pkgs: seq<ManifestPkg>, manifests: set<string>, required: set<string>,
                                           seen: set<string>, j: int, i: int)
    requires 0 <= j < |pkgs| && 0 <= i < |pkgs[j].fetchables|
    requires pkgs[j].fetchables[i].filename !in seen + GroupFiles(pkgs[..j])
    requires forall l :: 0 <= l < i ==> pkgs[j].fetchables[l].filename != pkgs[j].fetchables[i].filename
    requires pkgs[j].fetchables[i].filename in manifests && required - pkgs[j].fetchables[i].chksums != {}
    ensures LackingOf(pkgs[j].cpv, pkgs[j].fetchables[i], required) in FeedPkgs(pkgs, manifests, required, seen).notes
    decreases |pkgs|
  {
    var pkg := pkgs[0];
    var missingManifests := FetchableFiles(pkg.fetchables) - manifests;
    var noted := if missingManifests != {} then [Unlisted(pkg.cpv, missingManifests)] else [];
    var scan := ScanFetchables(pkg.cpv, pkg.fetchables, missingManifests, required, seen);
    var rest := FeedPkgs(pkgs[1..], manifests, required, scan.seen);
    assert FeedPkgs(pkgs, manifests, required, seen).notes == noted + scan.notes + rest.notes;
    if j == 0 {
      assert pkgs[..0] == [];
      ScanFetchablesNotes(pkg.cpv, pkg.fetchables, missingManifests, required, seen, i);
    } else {
      GroupFilesPrefix(pkgs, j);
      assert pkgs[1..][j - 1] == pkgs[j];
      FeedPkgsLacking(pkgs[1..], manifests, required, scan.seen, j - 1, i);
    }
  }

  /** the reports built from a run of notes, in order */
  function Reports(notes: seq<Note>): (r: seq<ManifestFinding>)
    ensures |r| == |notes|
    ensures forall k :: 0 <= k < |r| ==> (r[k].MissingChksum? <==> notes[k].Lacking?)
    ensures forall k :: 0 <= k < |r| && notes[k].Lacking? ==>
              IsMissingChksum(r[k], notes[k].cpv, notes[k].filename, notes[k].missing, notes[k].existing)
    ensures forall k :: 0 <= k < |r| ==> r[k] == Report(notes[k])
    ensures forall k :: 0 <= k < |r| && notes[k].Unlisted? ==> r[k] == MissingManifest(notes[k].cpv, notes[k].files)
    decreases |notes|
  {
    if notes == [] then [] else [Report(notes[0])] + Reports(notes[1..])
  }

  /** the reports, then the unknown-Manifest finding when any listed
      distfile went unfetched */
  function WithUnknown(reports: seq<ManifestFinding>, category: string, package: string, unknown: set<string>)
    : (r: seq<ManifestFinding>)
    ensures |r| == |reports| + (if unknown != {} then 1 else 0)
    ensures forall k :: 0 <= k < |reports| ==> r[k] == reports[k]
    ensures unknown != {} ==> r[|reports|] == UnknownManifest(category, package, unknown)
  {
    reports + if unknown != {} then [UnknownManifest(category, package, unknown)] else []
  }

  /** One repository's run of packages: the first package's Manifest is
      the one every package is compared with; distfiles it lists that no
      package fetches are reported once for the group. */
  function FeedGroup(group: seq<ManifestPkg>, required: set<string>): (r: seq<ManifestFinding>)
    requires |group| > 0
    ensures forall f :: f in r && f.UnknownManifest? ==>
              && f.category == group[0].cpv.category && f.package == group[0].cpv.package
              && f.files == group[0].distfiles - GroupFiles(group) && f.files != {}
    ensures group[0].distfiles - GroupFiles(group) != {} ==> exists f :: f in r && f.UnknownManifest?
    ensures forall k :: 0 <= k < |r| && r[k].MissingChksum? ==> r[k].filename in group[0].distfiles
    ensures forall f :: f in r ==> f.MissingManifest? || f.MissingChksum? || f.UnknownManifest?
  {
    var manifests := group[0].distfiles;
    var scan := FeedPkgs(group, manifests, required, {});
    GroupReports(scan.notes, manifests, group[0].cpv.category, group[0].cpv.package, manifests - scan.seen);
    WithUnknown(Reports(scan.notes), group[0].cpv.category, group[0].cpv.package, manifests - scan.seen)
  }

  /** the reports of a group's notes followed by its unknown-Manifest
      finding: the three report kinds, missing checksums only for
      listed files, and the unknown-Manifest finding exactly when there
      are unfetched distfiles */
  lemma GroupReports(notes: seq<Note>, manifests: set<string>, category: string, package: string, unknown: set<string>)
    requires forall n :: n in notes && n.Lacking? ==> n.filename in manifests
    ensures var r := WithUnknown(Reports(notes), category, package, unknown);
            && (forall f :: f in r && f.UnknownManifest? ==>
                  f.category == category && f.package == package && f.files == unknown && f.files != {})
            && (unknown != {} ==> exists f :: f in r && f.UnknownManifest?)
            && (forall k :: 0 <= k < |r| && r[k].MissingChksum? ==> r[k].filename in manifests)
            && (forall f :: f in r ==> f.MissingManifest? || f.MissingChksum? || f.UnknownManifest?)
  {
    var reports := Reports(notes);
    var r := WithUnknown(reports, category, package, unknown);
    assert forall k :: 0 <= k < |reports| ==> notes[k] in notes;
    assert unknown != {} ==> r[|reports|] in r;
  }

  /** No file is reported as lacking checksums twice within a group. */
  lemma FeedGroupDistinct(group: seq<ManifestPkg>, required: set<string>)
    requires |group| > 0
    ensures var r := FeedGroup(group, required);
            forall k, l :: 0 <= k < l < |r| && r[k].MissingChksum? && r[l].MissingChksum? ==>
              r[k].filename != r[l].filename
  {
    var manifests := group[0].distfiles;
    var scan := FeedPkgs(group, manifests, required, {});
    FeedPkgsDistinct(group, manifests, required, {});
    var r := FeedGroup(group, required);
    var reports := Reports(scan.notes);
    assert r[..|reports|] == reports;
    forall k, l | 0 <= k < l < |r| && r[k].MissingChksum? && r[l].MissingChksum? ensures r[k].filename != r[l].filename {
      assert l < |reports|;
      assert r[k] == reports[k] && r[l] == reports[l];
    }
  }

  /** Every package of a group whose fetchable files the Manifest does not
      all list is reported with exactly those files. */
  lemma FeedGroupMissingManifest(group: seq<ManifestPkg>, required: set<string>, p: ManifestPkg)
    requires |group| > 0 && p in group
    requires FetchableFiles(p.fetchables) - group[0].distfiles != {}
    ensures MissingManifest(p.cpv, FetchableFiles(p.fetchables) - group[0].distfiles) in FeedGroup(group, required)
  {
    var manifests := group[0].distfiles;
    var scan := FeedPkgs(group, manifests, required, {});
    FeedPkgsNotesUnlisted(group, manifests, required, {}, p);
    var k :| 0 <= k < |scan.notes| && scan.notes[k] == Unlisted(p.cpv, FetchableFiles(p.fetchables) - manifests);
    var r := FeedGroup(group, required);
    assert r[k] == Reports(scan.notes)[k];
  }

  /** Every missing-checksum finding of a group is about a fetchable of
      one of its packages whose file the first package's Manifest lists:
      it names the required checksums the fetchable lacks, at least one,
      and the ones it has. */
  lemma FeedGroupMissingChksum(group: seq<ManifestPkg>, required: set<string>, f: ManifestFinding)
    requires |group| > 0 && f in FeedGroup(group, required) && f.MissingChksum?
    ensures exists j, i :: && 0 <= j < |group| && FirstUnseen(group[j].fetchables, i, GroupFiles(group[..j]))
                           && var x := group[j].fetchables[i];
                           && x.filename in group[0].distfiles && required - x.chksums != {}
                           && IsMissingChksum(f, group[j].cpv, x.filename, required - x.chksums, x.chksums)
  {
    var manifests := group[0].distfiles;
    var n := FeedGroupNote(group, required, f);
    var j, i := NoteFirstUnseen(group, required, n);
    var x := group[j].fetchables[i];
    assert IsMissingChksum(f, group[j].cpv, x.filename, required - x.chksums, x.chksums);
  }

  /** the first unseen fetchable a group's missing-checksum note is about */
  lemma NoteFirstUnseen(group: seq<ManifestPkg>, required: set<string>, n: Note) returns (j: int, i: int)
    requires |group| > 0 && n in FeedPkgs(group, group[0].distfiles, required, {}).notes && n.Lacking?
    ensures 0 <= j < |group| && FirstUnseen(group[j].fetchables, i, GroupFiles(group[..j]))
    ensures n == LackingOf(group[j].cpv, group[j].fetchables[i], required)
    ensures n.filename in group[0].distfiles && n.missing != {}
  {
    FeedPkgsFrom(group, group[0].distfiles, required, {});
    j, i := LackingFromNothing(n, group, required);
  }

  /** a note from a group scanned with nothing seen before it */
  lemma LackingFromNothing(n: Note, pkgs: seq<ManifestPkg>, required: set<string>) returns (j: int, i: int)
    requires LackingFrom(n, pkgs, required, {})
    ensures 0 <= j < |pkgs| && FirstUnseen(pkgs[j].fetchables, i, GroupFiles(pkgs[..j]))
    ensures n == LackingOf(pkgs[j].cpv, pkgs[j].fetchables[i], required)
  {
    j, i :| && 0 <= j < |pkgs| && FirstUnseen(pkgs[j].fetchables, i, {} + GroupFiles(pkgs[..j]))
            && n == LackingOf(pkgs[j].cpv, pkgs[j].fetchables[i], required);
    assert {} + GroupFiles(pkgs[..j]) == GroupFiles(pkgs[..j]);
  }

  /** the note a missing-checksum finding of a group was reported from */
  lemma FeedGroupNote(group: seq<ManifestPkg>, required: set<string>, f: ManifestFinding) returns (n: Note)
    requires |group| > 0 && f in FeedGroup(group, required) && f.MissingChksum?
    ensures n in FeedPkgs(group, group[0].distfiles, required, {}).notes && n.Lacking? && f == Report(n)
  {
    var scan := FeedPkgs(group, group[0].distfiles, required, {});
    var reports := Reports(scan.notes);
    var r := FeedGroup(group, required);
    var k :| 0 <= k < |r| && r[k] == f;
    assert k < |reports| && r[k] == reports[k];
    n := scan.notes[k];
  }

  /** Every file a group fetches whose first fetchable in the group is
      listed in the Manifest but lacks a required checksum is reported,
      with the checksums it lacks and the ones it has. */
  lemma FeedGroupLacking(group: seq<ManifestPkg>, required: set<string>, j: int, i: int)
    requires 0 <= j < |group| && 0 <= i < |group[j].fetchables|
    requires group[j].fetchables[i].filename !in GroupFiles(group[..j])
    requires forall l :: 0 <= l < i ==> group[j].fetchables[l].filename != group[j].fetchables[i].filename
    requires group[j].fetchables[i].filename in group[0].distfiles && required - group[j].fetchables[i].chksums != {}
    ensures var x := group[j].fetchables[i];
            MakeMissingChksum(group[j].cpv, x.filename, required - x.chksums, x.chksums) in FeedGroup(group, required)
  {
    var manifests := group[0].distfiles;
    var scan := FeedPkgs(group, manifests, required, {});
    FeedPkgsLacking(group, manifests, required, {}, j, i);
    var n := LackingOf(group[j].cpv, group[j].fetchables[i], required);
    var k :| 0 <= k < |scan.notes| && scan.notes[k] == n;
    var r := FeedGroup(group, required);
    assert r[k] == Reports(scan.notes)[k] == Report(n);
  }

  function Flatten<T>(groups: seq<seq<T>>): seq<T>
    decreases |groups|
  {
    if groups == [] then [] else groups[0] + Flatten(groups[1..])
  }

  /** a run of packages from one repository */
  predicate OneRepo(g: seq<ManifestPkg>) {
    forall j :: 0 <= j < |g| ==> g[j].repo == g[0].repo
  }

  /** groupby(pkgs, repo): maximal runs of consecutive packages from the
      same repository */
  function GroupByRepo(pkgs: seq<ManifestPkg>): (r: seq<seq<ManifestPkg>>)
    ensures Flatten(r) == pkgs
    ensures forall i :: 0 <= i < |r| ==> |r[i]| > 0 && OneRepo(r[i])
    ensures forall i :: 0 <= i < |r| - 1 ==> r[i][0].repo != r[i + 1][0].repo
    ensures |r| > 0 ==> r[0][0] == pkgs[0]
    decreases |pkgs|
  {
    if pkgs == [] then []
    else
      var rest := GroupByRepo(pkgs[1..]);
      if rest != [] && rest[0][0].repo == pkgs[0].repo then
        assert Flatten(rest) == rest[0] + Flatten(rest[1..]);
        JoinRun(pkgs[0], rest);
        [[pkgs[0]] + rest[0]] + rest[1..]
      else
        assert OneRepo([pkgs[0]]);
        [[pkgs[0]]] + rest
  }

  /** A package from the first run's repository extends that run. */
  lemma JoinRun(p: ManifestPkg, rest: seq<seq<ManifestPkg>>)
    requires forall i :: 0 <= i < |rest| ==> |rest[i]| > 0 && OneRepo(rest[i])
    requires rest != [] && rest[0][0].repo == p.repo
    requires forall i :: 0 <= i < |rest| - 1 ==> rest[i][0].repo != rest[i + 1][0].repo
    ensures var r := [[p] + rest[0]] + rest[1..];
            (forall i :: 0 <= i < |r| ==> |r[i]| > 0 && OneRepo(r[i])) &&
            (forall i :: 0 <= i < |r| - 1 ==> r[i][0].repo != r[i + 1][0].repo)
  {
    var r := [[p] + rest[0]] + rest[1..];
    assert OneRepo(rest[0]);
    assert forall i :: 1 <= i < |r| ==> r[i] == rest[i];
  }

  /** the findings of each group, compared against its repository's
      required checksums */
  function GroupsFindings(groups: seq<seq<ManifestPkg>>, required: string -> set<string>)
    : (r: seq<seq<ManifestFinding>>)
    requires forall i :: 0 <= i < |groups| ==> |groups[i]| > 0
    ensures |r| == |groups|
    decreases |groups|
  {
    if groups == [] then []
    else [FeedGroup(groups[0], required(groups[0][0].repo))] + GroupsFindings(groups[1..], required)
  }

  /** the findings of the `i`-th group are its `FeedGroup` */
  lemma {:induction false} GroupsFindingsAt(groups: seq<seq<ManifestPkg>>, required: string -> set<string>, i: int)
    requires forall k :: 0 <= k < |groups| ==> |groups[k]| > 0
    requires 0 <= i < |groups|
    ensures GroupsFindings(groups, required)[i] == FeedGroup(groups[i], required(groups[i][0].repo))
    decreases i
  {
    if i > 0 {
      GroupsFindingsAt(groups[1..], required, i - 1);
      assert groups[1..][i - 1] == groups[i];
    }
  }

  /** `f` is in one of the sequences */
  ghost predicate InSome(f: ManifestFinding, ss: seq<seq<ManifestFinding>>) {
    exists i :: 0 <= i < |ss| && f in ss[i]
  }

  lemma InSomeCons(f: ManifestFinding, s: seq<ManifestFinding>, ss: seq<seq<ManifestFinding>>)
    ensures InSome(f, [s] + ss) <==> f in s || InSome(f, ss)
  {
    if f in s {
      assert ([s] + ss)[0] == s;
    }
    if InSome(f, ss) {
      var i :| 0 <= i < |ss| && f in ss[i];
      assert ([s] + ss)[i + 1] == ss[i];
    }
    if InSome(f, [s] + ss) && f !in s {
      var i :| 0 <= i < |[s] + ss| && f in ([s] + ss)[i];
      assert ([s] + ss)[i] == ss[i - 1];
    }
  }

  /** `f` is a finding of one of the groups, each compared against its
      repository's required checksums (by `GroupsFindingsAt`, the i-th
      sequence searched is `FeedGroup` of the i-th group) */
  ghost predicate InSomeGroup(f: ManifestFinding, groups: seq<seq<ManifestPkg>>, required: string -> set<string>)
    requires forall i :: 0 <= i < |groups| ==> |groups[i]| > 0
  {
    InSome(f, GroupsFindings(groups, required))
  }

  lemma InSomeGroupSplit(groups: seq<seq<ManifestPkg>>, required: string -> set<string>)
    requires |groups| > 0 && forall i :: 0 <= i < |groups| ==> |groups[i]| > 0
    ensures forall f :: InSomeGroup(f, groups, required) <==>
              f in FeedGroup(groups[0], required(groups[0][0].repo)) || InSomeGroup(f, groups[1..], required)
  {
    forall f ensures InSomeGroup(f, groups, required) <==>
                     f in FeedGroup(groups[0], required(groups[0][0].repo)) || InSomeGroup(f, groups[1..], required)
    {
      InSomeCons(f, FeedGroup(groups[0], required(groups[0][0].repo)), GroupsFindings(groups[1..], required));
    }
  }

  /** each group compared on its own, against its repository's required
      checksums, the findings in group order */
  function FeedGroups(groups: seq<seq<ManifestPkg>>, required: string -> set<string>): (r: seq<ManifestFinding>)
    requires forall i :: 0 <= i < |groups| ==> |groups[i]| > 0
    ensures forall f :: f in r ==> !f.ConflictingChksums?
    ensures forall f :: f in r <==> InSomeGroup(f, groups, required)
    decreases |groups|
  {
    if groups == [] then []
    else
      InSomeGroupSplit(groups, required);
      FeedGroup(groups[0], required(groups[0][0].repo)) + FeedGroups(groups[1..], required)
  }

  /** ManifestReport.feed over one package's worth of versions; the
      checksums a repository requires come from `required`. The
      conflicting-checksum comparison never fires, since the table of
      checksums seen is never filled. */
  function ManifestFeed(pkgs: seq<ManifestPkg>, required: string -> set<string>): (r: seq<ManifestFinding>)
    ensures forall f :: f in r ==> !f.ConflictingChksums?
    ensures pkgs == [] ==> r == []
    ensures forall f :: f in r <==> InSomeGroup(f, GroupByRepo(pkgs), required)
  {
    FeedGroups(GroupByRepo(pkgs), required)
  }

  /** When every version comes from one repository the whole feed is a
      single group compared against the first version's Manifest. */
  lemma SingleRepoFeed(pkgs: seq<ManifestPkg>, required: string -> set<string>)
    requires |pkgs| > 0 && forall i :: 0 <= i < |pkgs| ==> pkgs[i].repo == pkgs[0].repo
    ensures ManifestFeed(pkgs, required) == FeedGroup(pkgs, required(pkgs[0].repo))
  {
    var groups := GroupByRepo(pkgs);
    SingleGroup(pkgs, groups);
    assert groups == [pkgs];
    assert groups[1..] == [];
    assert FeedGroups(groups, required) == FeedGroup(pkgs, required(pkgs[0].repo)) + FeedGroups([], required);
  }

  lemma {:induction false} SingleGroup(pkgs: seq<ManifestPkg>, groups: seq<seq<ManifestPkg>>)
    requires |pkgs| > 0 && forall i :: 0 <= i < |pkgs| ==> pkgs[i].repo == pkgs[0].repo
    requires groups == GroupByRepo(pkgs)
    ensures groups == [pkgs]
    decreases |pkgs|
  {
    if |pkgs| > 1 {
      SingleGroup(pkgs[1..], GroupByRepo(pkgs[1..]));
      assert [pkgs[0]] + pkgs[1..] == pkgs;
    } else {
      assert pkgs[1..] == [];
      assert [pkgs[0]] == pkgs;
    }
  }
}
