/** Packages of variables and further packages, and the iterator that goes through all of them. */
module Packages {
  import opened Wrappers

  type AvModule = nat
  datatype Server = Server(id: nat, avModule: Option<AvModule>)
  datatype KsResult = Ok | TypeMismatch | Failure(code: nat)

  /** A variable of some server; a package holds a handle to it. */
  class KscVariable {
    const name: string
    const avModule: Option<AvModule>
    const server: Server
    var dirty: bool
    var lastResult: KsResult
    var currProps: nat

    constructor (name: string, avModule: Option<AvModule>, server: Server)
    {
      this.name, this.avModule, this.server := name, avModule, server;
      dirty, lastResult, currProps := false, Ok, 0;
    }
  }

  datatype Package = Package(vars: seq<KscVariable>, pkgs: seq<Package>, avModule: Option<AvModule>)

  /** All variables, depth first: those of the package itself, then those of its subpackages. */
  function Flatten(p: Package): (s: seq<KscVariable>)
    decreases p, |p.pkgs| + 1
  {
    p.vars + FlattenFrom(p, 0)
  }

  function FlattenFrom(p: Package, i: nat): (s: seq<KscVariable>)
    requires i <= |p.pkgs|
    decreases p, |p.pkgs| - i
  {
    if i == |p.pkgs| then [] else Flatten(p.pkgs[i]) + FlattenFrom(p, i + 1)
  }

  /** A package with one more subpackage holds the variables of that at the end. */
  lemma FlattenMore(vars: seq<KscVariable>, pkgs: seq<Package>, q: Package, a: Option<AvModule>)
    ensures Flatten(Package(vars, [], a)) == vars
    ensures Flatten(Package(vars, pkgs + [q], a)) == Flatten(Package(vars, pkgs, a)) + Flatten(q)
  {
    var p, p' := Package(vars, pkgs, a), Package(vars, pkgs + [q], a);
    MoreFrom(p, p', q, 0);
    assert FlattenFrom(Package(vars, [], a), 0) == [];
  }

  lemma {:induction false} MoreFrom(p: Package, p': Package, q: Package, i: nat)
    requires p'.pkgs == p.pkgs + [q] && i <= |p.pkgs|
    ensures FlattenFrom(p', i) == FlattenFrom(p, i) + Flatten(q)
    decreases |p.pkgs| - i
  {
    if i < |p.pkgs| {
      MoreFrom(p, p', q, i + 1);
      hide Flatten;
      assert p'.pkgs[i] == p.pkgs[i];
    } else {
      assert p'.pkgs[i] == q && FlattenFrom(p', i + 1) == [];
    }
  }

  /** Counts the variables, of the subpackages, too, if asked. */
  method SizeVariables(p: Package, deep: bool) returns (count: nat)
    ensures count == if deep then |Flatten(p)| else |p.vars|
    decreases p
  {
    if deep {
      count := 0;
      for i := 0 to |p.pkgs|
        invariant count + |FlattenFrom(p, i)| == |FlattenFrom(p, 0)|
      {
        var n := SizeVariables(p.pkgs[i], true);
        count := count + n;
      }
      return count + |p.vars|;
    }
    count := |p.vars|;
  }

  /** An iterator over a package: first its own variables, then with a further iterator one
      subpackage after the other. */
  class DeepIterator {
    const pkg: Package
    var varsIt: nat
    var pkgsIt: nat
    var rekIt: DeepIterator?
    ghost var repr: set<DeepIterator>

    ghost predicate Shape()
      reads this, repr
      decreases pkg
    {
      && this in repr
      && varsIt <= |pkg.vars| && pkgsIt <= |pkg.pkgs|
      && (rekIt == null ==> pkgsIt == 0 && repr == {this})
      && (rekIt != null ==>
            && varsIt == |pkg.vars| && pkgsIt > 0 && rekIt.pkg == pkg.pkgs[pkgsIt - 1]
            && rekIt in repr && rekIt.repr <= repr && repr == {this} + rekIt.repr && this !in rekIt.repr
            && rekIt.Shape())
    }

    /** What is still to come. */
    ghost function Remaining(): (s: seq<KscVariable>)
      requires Shape()
      reads this, repr
      decreases pkg
    {
      pkg.vars[varsIt..] + (if rekIt == null then [] else rekIt.Remaining()) + FlattenFrom(pkg, pkgsIt)
    }

    predicate HasNext()
      requires Shape()
      reads this, repr
      decreases pkg
    {
      varsIt < |pkg.vars| || (rekIt != null && rekIt.HasNext())
    }

    /** If nothing is left here, then nothing is left in the subpackages. */
    ghost predicate Settled()
      requires Shape()
      reads this, repr
      decreases pkg
    {
      (HasNext() || pkgsIt == |pkg.pkgs|) && (rekIt != null ==> rekIt.Settled())
    }

    ghost predicate Valid()
      reads this, repr
    {
      Shape() && Settled()
    }

    /** The iterator is at its end exactly if nothing is left. */
    lemma {:induction false} EndReached()
      requires Valid()
      ensures HasNext() <==> Remaining() != []
      decreases pkg
    {
      if rekIt != null {
        rekIt.EndReached();
      }
    }

    constructor (pkg: Package)
      ensures Valid() && fresh(repr) && this in repr && this.pkg == pkg && Remaining() == Flatten(pkg)
      decreases pkg, 3
    {
      this.pkg := pkg;
      varsIt, pkgsIt, rekIt := 0, 0, null;
      new;
      repr := {this};
      Normalize();
    }

    /** Nothing is left of the package's own variables and of the current subpackage. */
    ghost predicate Between()
      reads this, repr
    {
      Shape() && varsIt == |pkg.vars| && (rekIt != null ==> rekIt.Settled() && !rekIt.HasNext())
    }

    /** Starts with the next subpackage. */
    method Dive()
      requires Between() && pkgsIt < |pkg.pkgs|
      modifies this
      ensures Shape() && varsIt == |pkg.vars| && rekIt != null && rekIt.Settled()
      ensures pkgsIt == old(pkgsIt) + 1 && fresh(repr - {this}) && Remaining() == old(Remaining())
      decreases pkg, 0
    {
      LeftBetween();
      hide Flatten, Shape, Settled, Valid, Remaining, HasNext, FlattenFrom, Between;
      var below := new DeepIterator(pkg.pkgs[pkgsIt]);
      Enter(below);
    }

    /** `below` becomes the iterator over the next subpackage. */
    method Enter(below: DeepIterator)
      requires varsIt == |pkg.vars| && pkgsIt < |pkg.pkgs| && below.pkg == pkg.pkgs[pkgsIt]
      requires below.Valid() && below in below.repr && this !in below.repr
      modifies this
      ensures Shape() && varsIt == |pkg.vars| && rekIt == below && below.Settled()
      ensures pkgsIt == old(pkgsIt) + 1 && repr == {this} + below.repr
      ensures below.Remaining() == Flatten(below.pkg) ==> Remaining() == FlattenFrom(pkg, pkgsIt - 1)
    {
      rekIt := below;
      pkgsIt := pkgsIt + 1;
      repr := {this} + below.repr;
      assert pkg.vars[varsIt..] == [];
    }

    lemma LeftBetween()
      requires Between()
      ensures Remaining() == FlattenFrom(pkg, pkgsIt)
    {
      if rekIt != null {
        rekIt.EndReached();
      }
    }

    /** Goes on to the first subpackage that has variables. */
    method Search()
      requires Between()
      modifies this
      ensures Valid() && fresh(repr - old(repr)) && Remaining() == old(Remaining()) && varsIt == old(varsIt)
      decreases pkg, 1
    {
      while pkgsIt < |pkg.pkgs|
        invariant Between() && varsIt == old(varsIt) && fresh(repr - old(repr)) && Remaining() == old(Remaining())
        decreases |pkg.pkgs| - pkgsIt
      {
        Dive();
        if rekIt.HasNext() {
          return;
        }
      }
    }

    /** Goes on to the first subpackage that has variables, if there are none left before. */
    method Normalize()
      requires Shape() && (rekIt == null || rekIt.Settled())
      modifies this
      ensures Valid() && fresh(repr - old(repr)) && Remaining() == old(Remaining()) && varsIt == old(varsIt)
      decreases pkg, 2
    {
      if varsIt < |pkg.vars| {
        return;
      }
      if rekIt != null && rekIt.HasNext() {
        return;
      }
      Search();
    }

    /** The variable that is next. */
    method Current() returns (v: KscVariable)
      requires Valid() && HasNext()
      ensures Remaining() != [] && v == Remaining()[0]
      decreases pkg
    {
      if varsIt < |pkg.vars| {
        v := pkg.vars[varsIt];
      } else {
        rekIt.EndReached();
        v := rekIt.Current();
      }
    }

    /** Takes the next of the package's own variables. */
    method AdvanceOwn()
      requires Valid() && varsIt < |pkg.vars|
      modifies this`varsIt
      ensures Shape() && Settled() == (varsIt < |pkg.vars| || pkgsIt == |pkg.pkgs|)
      ensures rekIt == null && varsIt == old(varsIt) + 1
      ensures old(Remaining()) != [] && Remaining() == old(Remaining())[1..]
    {
      hide FlattenFrom;
      varsIt := varsIt + 1;
      assert pkg.vars[varsIt - 1..][1..] == pkg.vars[varsIt..];
    }

    /** Takes the next of the current subpackage's variables. */
    method AdvanceBelow()
      requires Valid() && HasNext() && varsIt == |pkg.vars|
      modifies repr
      ensures Shape() && rekIt != null && rekIt.Settled() && fresh(repr - old(repr)) && varsIt == old(varsIt)
      ensures old(Remaining()) != [] && Remaining() == old(Remaining())[1..]
      decreases pkg, 3
    {
      RekNext();
      hide FlattenFrom, Settled, Remaining, HasNext, Shape;
      ghost var front, rest := rekIt.Remaining(), FlattenFrom(pkg, pkgsIt);
      rekIt.Advance();
      repr := {this} + rekIt.repr;
      Stepped(rest);
      Fronted(front, rest);
    }

    lemma RekNext()
      requires Valid() && HasNext() && varsIt == |pkg.vars|
      ensures rekIt != null && rekIt.Valid() && rekIt.HasNext() && rekIt in rekIt.repr && rekIt.Remaining() != []
      ensures this !in rekIt.repr && pkgsIt > 0 && pkgsIt <= |pkg.pkgs| && rekIt.pkg == pkg.pkgs[pkgsIt - 1]
      ensures rekIt.repr <= repr
      ensures Remaining() == [] + rekIt.Remaining() + FlattenFrom(pkg, pkgsIt)
    {
      rekIt.EndReached();
      assert pkg.vars[varsIt..] == [];
    }

    lemma Stepped(rest: seq<KscVariable>)
      requires varsIt == |pkg.vars| && 0 < pkgsIt <= |pkg.pkgs| && rekIt != null && rekIt.pkg == pkg.pkgs[pkgsIt - 1]
      requires rekIt.Shape() && this !in rekIt.repr && repr == {this} + rekIt.repr && rest == FlattenFrom(pkg, pkgsIt)
      ensures Shape() && Remaining() == [] + rekIt.Remaining() + rest
    {
      assert pkg.vars[varsIt..] == [];
    }

    lemma Fronted(front: seq<KscVariable>, rest: seq<KscVariable>)
      requires front != []
      ensures [] + front + rest != [] && ([] + front + rest)[1..] == [] + front[1..] + rest
    {
    }

    /** Goes on to the next variable. */
    method Advance()
      requires Valid() && HasNext()
      modifies repr
      ensures Valid() && fresh(repr - old(repr))
      ensures old(Remaining()) != [] && Remaining() == old(Remaining())[1..]
      decreases pkg, 4
    {
      hide Remaining;
      if varsIt < |pkg.vars| {
        AdvanceOwn();
        if varsIt < |pkg.vars| {
          return;
        }
      } else {
        AdvanceBelow();
        if rekIt.HasNext() {
          return;
        }
      }
      Search();
    }

    method ToStart()
      requires Valid()
      modifies this
      ensures Valid() && fresh(repr - old(repr)) && Remaining() == Flatten(pkg)
    {
      rekIt := null;
      repr := {this};
      pkgsIt := 0;
      varsIt := 0;
      Normalize();
    }
  }

  /** Going through a package with the iterator visits every variable once, depth first. */
  method Visit(p: Package) returns (visited: seq<KscVariable>)
    ensures visited == Flatten(p)
  {
    hide DeepIterator.Shape, DeepIterator.Settled, DeepIterator.Remaining, DeepIterator.HasNext, Flatten;
    visited := [];
    var it := new DeepIterator(p);
    it.EndReached();
    while it.HasNext()
      invariant it.Valid() && fresh(it.repr) && visited + it.Remaining() == Flatten(p)
      invariant it.HasNext() <==> it.Remaining() != []
      decreases |it.Remaining()|
    {
      var v := it.Current();
      visited := visited + [v];
      it.Advance();
      it.EndReached();
    }
  }
}
