/** The values the dependency-visibility engine works on: atoms, package
    variants and dependency sets. Matching an atom against a repository
    and reducing a dependency set to clauses belong to the package
    manager, not to this model; they reach the engine as function
    parameters. */
module Atoms {

  type Flag = string

  /** category/package-version, the identity every finding carries */
  datatype Cpv = Cpv(category: string, package: string, fullver: string)

  /** A dependency atom. `restriction` stands for the version, slot and
      use constraints, which only the external matcher interprets;
      `blocks` marks a negative ("!") atom. Caches are keyed by the atom
      itself, so equal atoms share their cache entries. */
  datatype Atom = Atom(category: string, package: string, restriction: string, blocks: bool)

  /** atoms of the virtual category are resolved through a profile's
      virtuals index rather than by direct matching */
  predicate IsVirtual(a: Atom) {
    a.category == "virtual"
  }

  /** One dependency attribute of a package: its atoms flattened in
      order (conditionals ignored) and the flags its conditionals name. */
  datatype DepSet = DepSet(atoms: seq<Atom>, conditionals: set<Flag>)

  /** A package variant with its eclasses and both dependency attributes. */
  datatype Pkg = Pkg(cpv: Cpv, eclasses: set<string>, depends: DepSet, rdepends: DepSet)

  /** One OR-group of a dependency set in conjunctive normal form. */
  type Clause = seq<Atom>

  predicate HasBlocker(c: Clause) {
    exists i :: 0 <= i < |c| && c[i].blocks
  }

  /** the atoms of a clause as a set */
  function AtomSet(c: Clause): set<Atom> {
    set a | a in c
  }

  /** some variant in `variants` passes `accept` */
  predicate AnyAccepted(variants: seq<Pkg>, accept: Pkg -> bool) {
    exists i :: 0 <= i < |variants| && accept(variants[i])
  }

  /** The atom resolves under a profile: its virtuals index matches it,
      or one of the atom's matching variants passes the profile's
      visibility filter. */
  predicate Provides(virtuals: Atom -> bool, vfilter: Pkg -> bool, variants: seq<Pkg>, a: Atom) {
    virtuals(a) || AnyAccepted(variants, vfilter)
  }
}
