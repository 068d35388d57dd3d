/** Sorting the variables of a package into buckets, one for each pair of a server and an A/V
    module, and pairing the buckets of two packages. */
module Sorter {
  import opened Packages
  import opened Wrappers

  datatype Key = Key(avModule: Option<AvModule>, server: Server)

  /** A variable with the default A/V module in force where it stands. */
  datatype Placed = Placed(variable: KscVariable, inherited: Option<AvModule>)

  function Own(p: Package, inherited: Option<AvModule>): (s: seq<Placed>) {
    seq(|p.vars|, i requires 0 <= i < |p.vars| => Placed(p.vars[i], inherited))
  }

  /** The variables of a package, depth first; the nearest package with an A/V module around a
      variable sets its default. */
  function Places(p: Package, outer: Option<AvModule>): (s: seq<Placed>)
    decreases p, |p.pkgs| + 1
  {
    var inherited := Default(p, outer);
    Own(p, inherited) + PlacesFrom(p, inherited, 0)
  }

  function PlacesFrom(p: Package, inherited: Option<AvModule>, i: nat): (s: seq<Placed>)
    requires i <= |p.pkgs|
    decreases p, |p.pkgs| - i
  {
    if i == |p.pkgs| then [] else Places(p.pkgs[i], inherited) + PlacesFrom(p, inherited, i + 1)
  }

  function Default(p: Package, outer: Option<AvModule>): (a: Option<AvModule>) {
    if p.avModule.Some? then p.avModule else outer
  }

  function Variables(s: seq<Placed>): (t: seq<KscVariable>)
    ensures |t| == |s|
  {
    seq(|s|, i requires 0 <= i < |s| => s[i].variable)
  }

  lemma VariablesAppend(s: seq<Placed>, t: seq<Placed>)
    ensures Variables(s + t) == Variables(s) + Variables(t)
  {
  }

  /** Sorting places exactly the variables that deep iteration visits, in the same order. */
  lemma {:induction false} PlacesFlatten(p: Package, outer: Option<AvModule>)
    ensures Variables(Places(p, outer)) == Flatten(p)
    decreases p, |p.pkgs| + 1
  {
    var inherited := Default(p, outer);
    var own := Own(p, inherited);
    VariablesAppend(own, PlacesFrom(p, inherited, 0));
    assert Variables(own) == p.vars;
    PlacesFromFlatten(p, inherited, 0);
  }

  lemma {:induction false} PlacesFromFlatten(p: Package, inherited: Option<AvModule>, i: nat)
    requires i <= |p.pkgs|
    ensures Variables(PlacesFrom(p, inherited, i)) == FlattenFrom(p, i)
    decreases p, |p.pkgs| - i
  {
    if i < |p.pkgs| {
      VariablesAppend(Places(p.pkgs[i], inherited), PlacesFrom(p, inherited, i + 1));
      PlacesFlatten(p.pkgs[i], inherited);
      PlacesFromFlatten(p, inherited, i + 1);
    }
  }

  /** A variable inside nested packages, the innermost one last. */
  predicate Inside(v: KscVariable, path: seq<Package>) {
    path != [] && v in path[|path| - 1].vars &&
    forall i :: 0 <= i < |path| - 1 ==> path[i + 1] in path[i].pkgs
  }

  /** The A/V module of the innermost package that has one. */
  function Nearest(path: seq<Package>, outer: Option<AvModule>): (a: Option<AvModule>) {
    if path == [] then outer else Nearest(path[1..], Default(path[0], outer))
  }

  lemma {:induction false} InPlacesFrom(p: Package, inherited: Option<AvModule>, i: nat, k: nat, x: Placed)
    requires i <= k < |p.pkgs| && x in Places(p.pkgs[k], inherited)
    ensures x in PlacesFrom(p, inherited, i)
    decreases k - i
  {
    if i < k {
      InPlacesFrom(p, inherited, i + 1, k, x);
    }
  }

  /** Wherever a variable stands, it is placed with the default of the nearest package around
      it that has one. */
  lemma {:induction false} NearestDefault(v: KscVariable, path: seq<Package>, outer: Option<AvModule>)
    requires Inside(v, path)
    ensures Placed(v, Nearest(path, outer)) in Places(path[0], outer)
    decreases path
  {
    var p := path[0];
    var inherited := Default(p, outer);
    if |path| == 1 {
      var i :| 0 <= i < |p.vars| && p.vars[i] == v;
      assert path[1..] == [];
      assert Places(p, outer)[i] == Placed(v, inherited);
    } else {
      var rest := path[1..];
      forall i | 0 <= i < |rest| - 1 ensures rest[i + 1] in rest[i].pkgs {
        assert path[i + 1 + 1] in path[i + 1].pkgs;
      }
      assert path[0 + 1] in path[0].pkgs;
      NearestDefault(v, rest, inherited);
      var k :| 0 <= k < |p.pkgs| && p.pkgs[k] == rest[0];
      InPlacesFrom(p, inherited, 0, k, Placed(v, Nearest(path, outer)));
    }
  }

  /** And nothing else is placed. */
  lemma {:induction false} PlacedInside(p: Package, outer: Option<AvModule>, x: Placed) returns (path: seq<Package>)
    requires x in Places(p, outer)
    ensures Inside(x.variable, path) && path[0] == p && x.inherited == Nearest(path, outer)
    decreases p, |p.pkgs| + 1
  {
    var inherited := Default(p, outer);
    if x in PlacesFrom(p, inherited, 0) {
      var rest := PlacedBelow(p, inherited, 0, x);
      path := [p] + rest;
      assert path[1..] == rest;
      forall i | 0 <= i < |path| - 1 ensures path[i + 1] in path[i].pkgs {
        if i > 0 {
          assert rest[i - 1 + 1] in rest[i - 1].pkgs;
        }
      }
    } else {
      path := [p];
      assert path[1..] == [];
    }
  }

  lemma {:induction false} PlacedBelow(p: Package, inherited: Option<AvModule>, i: nat, x: Placed) returns (path: seq<Package>)
    requires i <= |p.pkgs| && x in PlacesFrom(p, inherited, i)
    ensures Inside(x.variable, path) && path[0] in p.pkgs && x.inherited == Nearest(path, inherited)
    decreases p, |p.pkgs| - i
  {
    if x in Places(p.pkgs[i], inherited) {
      path := PlacedInside(p.pkgs[i], inherited, x);
    } else {
      path := PlacedBelow(p, inherited, i + 1, x);
    }
  }

  /** The A/V module for a variable: its own, that of the packages around it, that of its
      server, or that of the client. */
  function FindAvModule(v: KscVariable, inherited: Option<AvModule>, client: Option<AvModule>): (a: Option<AvModule>) {
    if v.avModule.Some? then v.avModule
    else if inherited.Some? then inherited
    else if v.server.avModule.Some? then v.server.avModule
    else client
  }

  function KeyOf(x: Placed, client: Option<AvModule>): (k: Key) {
    Key(FindAvModule(x.variable, x.inherited, client), x.variable.server)
  }

  type Table = map<Key, seq<KscVariable>>

  function Bucket(t: Table, k: Key): (s: seq<KscVariable>) {
    if k in t then t[k] else []
  }

  /** The variables placed for one bucket, of those that are wanted. */
  function Select(s: seq<Placed>, k: Key, wanted: set<KscVariable>, client: Option<AvModule>): (b: seq<KscVariable>) {
    if s == [] then []
    else (if s[0].variable in wanted && KeyOf(s[0], client) == k then [s[0].variable] else []) + Select(s[1..], k, wanted, client)
  }

  /** All variables placed, of those that are wanted. */
  function Chosen(s: seq<Placed>, wanted: set<KscVariable>): (b: seq<KscVariable>) {
    if s == [] then []
    else (if s[0].variable in wanted then [s[0].variable] else []) + Chosen(s[1..], wanted)
  }

  function Insert(t: Table, x: Placed, client: Option<AvModule>): (t': Table) {
    var k := KeyOf(x, client);
    t[k := Bucket(t, k) + [x.variable]]
  }

  function Spread(t: Table, s: seq<Placed>, wanted: set<KscVariable>, client: Option<AvModule>): (t': Table)
    decreases s
  {
    if s == [] then t
    else Spread(if s[0].variable in wanted then Insert(t, s[0], client) else t, s[1..], wanted, client)
  }

  lemma {:induction false} SpreadAppend(t: Table, s: seq<Placed>, u: seq<Placed>, wanted: set<KscVariable>, client: Option<AvModule>)
    ensures Spread(t, s + u, wanted, client) == Spread(Spread(t, s, wanted, client), u, wanted, client)
    decreases s
  {
    if s == [] {
      assert s + u == u;
    } else {
      assert (s + u)[1..] == s[1..] + u;
      SpreadAppend(if s[0].variable in wanted then Insert(t, s[0], client) else t, s[1..], u, wanted, client);
    }
  }

  /** Each bucket gets exactly the variables with its key, in the order of iteration. */
  lemma {:induction false} SpreadBucket(t: Table, s: seq<Placed>, wanted: set<KscVariable>, client: Option<AvModule>, k: Key)
    ensures Bucket(Spread(t, s, wanted, client), k) == Bucket(t, k) + Select(s, k, wanted, client)
    ensures k in Spread(t, s, wanted, client) <==> k in t || Select(s, k, wanted, client) != []
    decreases s
  {
    if s != [] {
      SpreadBucket(if s[0].variable in wanted then Insert(t, s[0], client) else t, s[1..], wanted, client, k);
    }
  }

  /** The variables of all buckets together. */
  ghost function Contents(t: Table): (m: multiset<KscVariable>) {
    if t == map[] then multiset{} else
      var k :| k in t;
      multiset(t[k]) + Contents(t - {k})
  }

  lemma {:induction false} ContentsWithout(t: Table, k: Key)
    requires k in t
    ensures Contents(t) == multiset(t[k]) + Contents(t - {k})
    decreases |t|
  {
    var j :| j in t && Contents(t) == multiset(t[j]) + Contents(t - {j});
    if j != k {
      ContentsWithout(t - {j}, k);
      ContentsWithout(t - {k}, j);
      assert t - {j} - {k} == t - {k} - {j};
    }
  }

  lemma ContentsInsert(t: Table, x: Placed, client: Option<AvModule>)
    ensures Contents(Insert(t, x, client)) == Contents(t) + multiset{x.variable}
  {
    var k, t' := KeyOf(x, client), Insert(t, x, client);
    var b := Bucket(t, k);
    assert t' - {k} == t - {k} && t'[k] == b + [x.variable];
    hide Insert, KeyOf;
    ContentsWithout(t', k);
    assert multiset(t'[k]) == multiset(b) + multiset{x.variable};
    if k in t {
      ContentsWithout(t, k);
    } else {
      assert t - {k} == t;
    }
    hide Contents;
  }

  /** Sorting neither loses nor duplicates a variable. */
  lemma {:induction false} SpreadConserves(t: Table, s: seq<Placed>, wanted: set<KscVariable>, client: Option<AvModule>)
    ensures Contents(Spread(t, s, wanted, client)) == Contents(t) + multiset(Chosen(s, wanted))
    decreases s
  {
    if s != [] {
      var t' := if s[0].variable in wanted then Insert(t, s[0], client) else t;
      SpreadConserves(t', s[1..], wanted, client);
      if s[0].variable in wanted {
        ContentsInsert(t, s[0], client);
      }
    }
  }

  /** `path[i]` is the innermost package around a variable that has an A/V module. */
  predicate Innermost(path: seq<Package>, i: int) {
    0 <= i < |path| && path[i].avModule.Some? && forall j :: i < j < |path| ==> path[j].avModule.None?
  }

  predicate NoneHas(path: seq<Package>) {
    forall i :: 0 <= i < |path| ==> path[i].avModule.None?
  }

  /** `a` is the A/V module in force for `v` inside the packages `path`: its own; or that of the
      innermost package that has one; or the one from outside; or that of its server; or that of
      the client. */
  ghost predicate Governs(v: KscVariable, path: seq<Package>, outer: Option<AvModule>, client: Option<AvModule>, a: Option<AvModule>) {
    && (v.avModule.Some? ==> a == v.avModule)
    && (v.avModule.None? ==>
          && (forall i :: Innermost(path, i) ==> a == path[i].avModule)
          && (NoneHas(path) && outer.Some? ==> a == outer)
          && (NoneHas(path) && outer.None? && v.server.avModule.Some? ==> a == v.server.avModule)
          && (NoneHas(path) && outer.None? && v.server.avModule.None? ==> a == client))
  }

  lemma {:induction false} NearestIs(path: seq<Package>, outer: Option<AvModule>) returns (i: int)
    ensures if NoneHas(path) then Nearest(path, outer) == outer else Innermost(path, i) && Nearest(path, outer) == path[i].avModule
  {
    i := -1;
    if path != [] {
      var p, rest := path[0], path[1..];
      i := NearestIs(rest, Default(p, outer));
      assert NoneHas(path) <==> p.avModule.None? && NoneHas(rest);
      i := if NoneHas(rest) then 0 else i + 1;
    }
  }

  /** There is always exactly one, and sorting goes by it. */
  lemma GovernsExactly(v: KscVariable, path: seq<Package>, outer: Option<AvModule>, client: Option<AvModule>, a: Option<AvModule>)
    requires Governs(v, path, outer, client, a)
    ensures KeyOf(Placed(v, Nearest(path, outer)), client) == Key(a, v.server)
  {
    var i := NearestIs(path, outer);
  }

  lemma GovernsFound(v: KscVariable, path: seq<Package>, outer: Option<AvModule>, client: Option<AvModule>)
    ensures Governs(v, path, outer, client, FindAvModule(v, Nearest(path, outer), client))
  {
    var i := NearestIs(path, outer);
    assert forall j, k :: Innermost(path, j) && Innermost(path, k) ==> j == k;
  }

  /** `v` is inside `path`, which starts at `pkg`. */
  predicate Stands(v: KscVariable, path: seq<Package>, pkg: Package) {
    Inside(v, path) && path[0] == pkg
  }

  lemma {:induction false} SelectHas(s: seq<Placed>, k: Key, wanted: set<KscVariable>, client: Option<AvModule>, v: KscVariable)
    ensures v in Select(s, k, wanted, client) <==> v in wanted && exists x :: x in s && x.variable == v && KeyOf(x, client) == k
  {
    if s != [] {
      SelectHas(s[1..], k, wanted, client, v);
      hide KeyOf;
      assert forall x :: x in s <==> x == s[0] || x in s[1..];
    }
  }

  /** After sorting, each wanted variable is in the bucket of its server and of the A/V module in
      force where it stands. */
  lemma InItsBucket(pkg: Package, outer: Option<AvModule>, wanted: set<KscVariable>, client: Option<AvModule>, t: Table,
      v: KscVariable, path: seq<Package>, a: Option<AvModule>)
    requires Bucket(t, Key(a, v.server)) == Select(Places(pkg, outer), Key(a, v.server), wanted, client)
    requires Stands(v, path, pkg) && v in wanted && Governs(v, path, outer, client, a)
    ensures v in Bucket(t, Key(a, v.server))
  {
    hide Places, Governs, FindAvModule, Select, Inside, Nearest;
    NearestDefault(v, path, outer);
    GovernsExactly(v, path, outer, client, a);
    SelectHas(Places(pkg, outer), Key(a, v.server), wanted, client, v);
  }

  /** And nothing else is in a bucket. */
  lemma OnlyInItsBucket(pkg: Package, outer: Option<AvModule>, wanted: set<KscVariable>, client: Option<AvModule>, t: Table,
      v: KscVariable, k: Key) returns (path: seq<Package>)
    requires Bucket(t, k) == Select(Places(pkg, outer), k, wanted, client) && v in Bucket(t, k)
    ensures v in wanted && v.server == k.server && Stands(v, path, pkg) && Governs(v, path, outer, client, k.avModule)
  {
    hide Places, Governs, FindAvModule, Select, Inside, Nearest;
    var s := Places(pkg, outer);
    SelectHas(s, k, wanted, client, v);
    var x :| x in s && x.variable == v && KeyOf(x, client) == k;
    path := PlacedInside(pkg, outer, x);
    GovernsFound(v, path, outer, client);
  }

  /** Sorts by server and A/V module; asked for dirty variables only, it leaves out the rest. */
  class KscSorter {
    const dirtyOnly: bool
    const client: Option<AvModule>
    var table: Table

    constructor (dirtyOnly: bool, client: Option<AvModule>)
      ensures this.dirtyOnly == dirtyOnly && this.client == client && table == map[]
    {
      this.dirtyOnly, this.client := dirtyOnly, client;
      table := map[];
    }

    /** The variables that this sorter takes. */
    ghost predicate Takes(s: seq<KscVariable>, wanted: set<KscVariable>)
      reads (set v | v in s)`dirty
    {
      forall v :: v in s ==> (v in wanted <==> !dirtyOnly || v.dirty)
    }

    /** Sorts the variables of a package, and then those of its subpackages. */
    method SortVariables(pkg: Package, outer: Option<AvModule>, ghost wanted: set<KscVariable>)
      requires Takes(Flatten(pkg), wanted)
      modifies this`table
      ensures table == Spread(old(table), Places(pkg, outer), wanted, client)
      decreases pkg, 1
    {
      var inherited := if pkg.avModule.Some? then pkg.avModule else outer;
      ghost var own := Own(pkg, inherited);
      var i := 0;
      while i < |pkg.vars|
        invariant 0 <= i <= |pkg.vars| && Takes(Flatten(pkg), wanted)
        invariant Spread(table, own[i..], wanted, client) == Spread(old(table), own, wanted, client)
      {
        var current := pkg.vars[i];
        assert current in Flatten(pkg) && own[i] == Placed(current, inherited);
        assert own[i..][0] == own[i] && own[i..][1..] == own[i + 1..];
        assert [] + [current] == [current];
        ghost var next := if current in wanted then Insert(table, own[i], client) else table;
        if !dirtyOnly || current.dirty {
          var key := Key(FindAvModule(current, inherited, client), current.server);
          if key in table {
            table := table[key := table[key] + [current]];
          } else {
            table := table[key := [current]];
          }
        }
        assert table == next;
        i := i + 1;
      }
      SortSubpackages(pkg, inherited, wanted);
      SpreadAppend(old(table), own, PlacesFrom(pkg, inherited, 0), wanted, client);
    }

    method SortSubpackages(pkg: Package, inherited: Option<AvModule>, ghost wanted: set<KscVariable>)
      requires Takes(FlattenFrom(pkg, 0), wanted)
      modifies this`table
      ensures table == Spread(old(table), PlacesFrom(pkg, inherited, 0), wanted, client)
      decreases pkg, 0
    {
      var i := 0;
      while i < |pkg.pkgs|
        invariant 0 <= i <= |pkg.pkgs| && Takes(FlattenFrom(pkg, i), wanted)
        invariant Spread(table, PlacesFrom(pkg, inherited, i), wanted, client) ==
          Spread(old(table), PlacesFrom(pkg, inherited, 0), wanted, client)
      {
        SpreadAppend(table, Places(pkg.pkgs[i], inherited), PlacesFrom(pkg, inherited, i + 1), wanted, client);
        assert FlattenFrom(pkg, i) == Flatten(pkg.pkgs[i]) + FlattenFrom(pkg, i + 1);
        assert forall v :: v in FlattenFrom(pkg, i + 1) ==> v in FlattenFrom(pkg, i);
        assert Takes(FlattenFrom(pkg, i + 1), wanted);
        SortVariables(pkg.pkgs[i], inherited, wanted);
        i := i + 1;
      }
    }

    /** Sorts a package into an empty sorter: each bucket holds the wanted variables with its
        key, and all together hold the wanted variables of the package. */
    method Sort(pkg: Package, outer: Option<AvModule>, ghost wanted: set<KscVariable>)
      requires table == map[] && Takes(Flatten(pkg), wanted)
      modifies this`table
      ensures forall k :: Bucket(table, k) == Select(Places(pkg, outer), k, wanted, client)
      ensures forall v, path, a :: Stands(v, path, pkg) && v in wanted && Governs(v, path, outer, client, a) ==>
        v in Bucket(table, Key(a, v.server))
      ensures forall k :: k in table ==> table[k] != []
      ensures Contents(table) == multiset(Filter(Flatten(pkg), wanted))
    {
      SortVariables(pkg, outer, wanted);
      Sorted(pkg, outer, wanted, client);
      forall v, path, a | Stands(v, path, pkg) && v in wanted && Governs(v, path, outer, client, a)
        ensures v in Bucket(table, Key(a, v.server))
      {
        hide Places, Governs, Select, Stands, Bucket;
        InItsBucket(pkg, outer, wanted, client, table, v, path, a);
      }
    }

    predicate IsEmpty()
      reads this`table
    {
      table == map[]
    }

    /** Takes any bucket out. */
    method RemoveFirst() returns (k: Key, bucket: seq<KscVariable>)
      requires !IsEmpty()
      modifies this`table
      ensures k in old(table) && bucket == old(table)[k] && table == old(table) - {k}
    {
      k :| k in table;
      bucket := table[k];
      table := table - {k};
    }

    /** Takes the bucket with the given key out, if there is one. */
    method RemoveMatchingBucket(k: Key) returns (bucket: Option<seq<KscVariable>>)
      modifies this`table
      ensures bucket == Lookup(old(table), k) && table == old(table) - {k}
    {
      if k in table {
        bucket := Some(table[k]);
        table := table - {k};
      } else {
        bucket := None;
        assert table == table - {k};
      }
    }
  }

  function Filter(s: seq<KscVariable>, wanted: set<KscVariable>): (t: seq<KscVariable>) {
    if s == [] then [] else (if s[0] in wanted then [s[0]] else []) + Filter(s[1..], wanted)
  }

  lemma {:induction false} ChosenFilter(s: seq<Placed>, wanted: set<KscVariable>)
    ensures Chosen(s, wanted) == Filter(Variables(s), wanted)
    decreases s
  {
    if s != [] {
      ChosenFilter(s[1..], wanted);
      assert Variables(s)[1..] == Variables(s[1..]);
    }
  }

  lemma Sorted(pkg: Package, outer: Option<AvModule>, wanted: set<KscVariable>, client: Option<AvModule>)
    ensures var t := Spread(map[], Places(pkg, outer), wanted, client);
      && (forall k :: Bucket(t, k) == Select(Places(pkg, outer), k, wanted, client))
      && (forall k :: k in t ==> t[k] != [])
      && Contents(t) == multiset(Filter(Flatten(pkg), wanted))
  {
    hide Places, Flatten, Spread, Select, Contents, Chosen, Filter;
    var s := Places(pkg, outer);
    PlacesFlatten(pkg, outer);
    forall k ensures Bucket(Spread(map[], s, wanted, client), k) == Select(s, k, wanted, client)
      ensures k in Spread(map[], s, wanted, client) ==> Select(s, k, wanted, client) != []
    {
      SpreadBucket(map[], s, wanted, client, k);
    }
    SpreadConserves(map[], s, wanted, client);
    ChosenFilter(s, wanted);
    ContentsOfNone();
  }

  lemma ContentsOfNone()
    ensures Contents(map[]) == multiset{}
  {
  }

  function Lookup(t: Table, k: Key): (b: Option<seq<KscVariable>>) {
    if k in t then Some(t[k]) else None
  }

  /** A request: the bucket to be read, the bucket to be written, and whether it worked. */
  datatype Exchange = Exchange(get: Option<seq<KscVariable>>, put: Option<seq<KscVariable>>, worked: bool)

  /** The way to the servers; `made` are the requests made. */
  class Network {
    ghost var made: seq<Exchange>

    /** One data exchange with a server; its outcome is up to the server. */
    method DoSimpleExchange(get: Option<seq<KscVariable>>, put: Option<seq<KscVariable>>) returns (ok: bool)
      modifies this
      ensures made == old(made) + [Exchange(get, put, ok)]
      ensures get.None? && put.None? ==> !ok
    {
      ok := *;
      if get.None? && put.None? {
        ok := false;
      }
      made := made + [Exchange(get, put, ok)];
    }
  }

  predicate AllWorked(made: seq<Exchange>) {
    forall i :: 0 <= i < |made| ==> made[i].worked
  }

  function Members(keys: seq<Key>): (s: set<Key>) {
    set k | k in keys
  }

  /** The requests `made` are those for `keys`, one each: with everything to be read and to be
      written under that key. */
  ghost predicate Paired(made: seq<Exchange>, keys: seq<Key>, gets: Table, sets: Table) {
    && |made| == |keys|
    && (forall i, j :: 0 <= i < j < |keys| ==> keys[i] != keys[j])
    && (forall i :: 0 <= i < |keys| ==> made[i].get == Lookup(gets, keys[i]) && made[i].put == Lookup(sets, keys[i]))
  }

  /** One request with a bucket to be read, and the matching one to be written. */
  method ExchangeFirst(network: Network, getSorter: KscSorter, setSorter: KscSorter) returns (ok: bool, k: Key)
    requires getSorter != setSorter && !getSorter.IsEmpty()
    modifies network, getSorter`table, setSorter`table
    ensures k in old(getSorter.table)
    ensures network.made == old(network.made) + [Exchange(Some(old(getSorter.table)[k]), Lookup(old(setSorter.table), k), ok)]
    ensures getSorter.table == old(getSorter.table) - {k} && setSorter.table == old(setSorter.table) - {k}
  {
    var get, put;
    k, get := getSorter.RemoveFirst();
    put := setSorter.RemoveMatchingBucket(k);
    ok := network.DoSimpleExchange(Some(get), put);
  }

  /** The requests made so far; `get` and `put` are what is left of the tables. */
  ghost predicate Going(made: seq<Exchange>, keys: seq<Key>, gets: Table, sets: Table, get: Table, put: Table) {
    && Paired(made, keys, gets, sets) && Members(keys) <= gets.Keys + sets.Keys
    && get == gets - Members(keys) && put == sets - Members(keys)
  }

  lemma PairedStep(made: seq<Exchange>, keys: seq<Key>, gets: Table, sets: Table, k: Key, x: Exchange)
    requires Paired(made, keys, gets, sets) && k !in keys && x.get == Lookup(gets, k) && x.put == Lookup(sets, k)
    ensures Paired(made + [x], keys + [k], gets, sets)
  {
  }

  lemma LeftOver(t: Table, keys: seq<Key>, k: Key)
    ensures Members(keys + [k]) == Members(keys) + {k} && t - Members(keys) - {k} == t - Members(keys + [k])
    ensures k in t - Members(keys) ==> k !in keys
    ensures k !in keys ==> Lookup(t - Members(keys), k) == Lookup(t, k)
  {
    assert Members(keys + [k]) == Members(keys) + {k};
  }

  lemma GoingStep(made: seq<Exchange>, keys: seq<Key>, gets: Table, sets: Table, get: Table, put: Table, k: Key, x: Exchange)
    requires Going(made, keys, gets, sets, get, put)
    requires (k in get || k in put) && x.get == Lookup(get, k) && x.put == Lookup(put, k)
    ensures Going(made + [x], keys + [k], gets, sets, get - {k}, put - {k})
    ensures AllWorked(made + [x]) <==> AllWorked(made) && x.worked
  {
    hide AllWorked;
    WorkedStep(made, x);
    LeftOver(gets, keys, k);
    LeftOver(sets, keys, k);
    PairedStep(made, keys, gets, sets, k, x);
    hide Paired, Members, Lookup;
  }

  lemma GoingStarts(gets: Table, sets: Table)
    ensures Going([], [], gets, sets, gets, sets) && AllWorked([])
  {
  }

  lemma GoingEnds(made: seq<Exchange>, keys: seq<Key>, gets: Table, sets: Table, get: Table, put: Table)
    requires Going(made, keys, gets, sets, get, put) && get == map[] && put == map[]
    ensures Complete(made, keys, gets, sets)
  {
    NothingLeftOver(Members(keys), gets);
    NothingLeftOver(Members(keys), sets);
  }

  lemma WorkedStep(made: seq<Exchange>, x: Exchange)
    ensures AllWorked(made + [x]) <==> AllWorked(made) && x.worked
  {
    assert (made + [x])[|made|] == x;
    forall i | 0 <= i < |made| ensures (made + [x])[i] == made[i] { }
  }

  /** The requests for the keys of both tables, one each. */
  ghost predicate Complete(made: seq<Exchange>, keys: seq<Key>, gets: Table, sets: Table) {
    Paired(made, keys, gets, sets) && Members(keys) == gets.Keys + sets.Keys
  }

  /** First all buckets to be read, with the matching ones to be written. */
  method MergeGets(network: Network, getSorter: KscSorter, setSorter: KscSorter)
    returns (ok: bool, ghost made: seq<Exchange>, ghost keys: seq<Key>)
    requires getSorter != setSorter
    modifies network, getSorter`table, setSorter`table
    ensures getSorter.IsEmpty() && network.made == old(network.made) + made && (ok <==> AllWorked(made))
    ensures Going(made, keys, old(getSorter.table), old(setSorter.table), getSorter.table, setSorter.table)
  {
    hide Going, AllWorked, Lookup;
    ok, made, keys := true, [], [];
    ghost var gets, sets := getSorter.table, setSorter.table;
    GoingStarts(gets, sets);
    while !getSorter.IsEmpty()
      invariant Going(made, keys, gets, sets, getSorter.table, setSorter.table)
      invariant network.made == old(network.made) + made && (ok <==> AllWorked(made))
      decreases |getSorter.table|
    {
      ghost var get, put := getSorter.table, setSorter.table;
      var worked, k := ExchangeFirst(network, getSorter, setSorter);
      ghost var x := Exchange(Lookup(get, k), Lookup(put, k), worked);
      LookedUp(get, k);
      FewerLeft(get, k);
      GoingStep(made, keys, gets, sets, get, put, k, x);
      ok := ok && worked;
      made, keys := made + [x], keys + [k];
    }
  }

  lemma LookedUp(t: Table, k: Key)
    ensures Lookup(t, k) == if k in t then Some(t[k]) else None
  {
  }

  /** Makes the requests for two packages: buckets with equal keys go into one, then the left-over
      ones to be written. Every bucket is used exactly once, both sorters end up empty, and the
      result says whether all requests worked. */
  method MergeSorters(network: Network, getSorter: KscSorter, setSorter: KscSorter)
    returns (ok: bool, ghost made: seq<Exchange>, ghost keys: seq<Key>)
    requires getSorter != setSorter
    modifies network, getSorter`table, setSorter`table
    ensures getSorter.IsEmpty() && setSorter.IsEmpty()
    ensures network.made == old(network.made) + made && (ok <==> AllWorked(made))
    ensures Complete(made, keys, old(getSorter.table), old(setSorter.table))
  {
    hide Going, Complete, AllWorked, Lookup;
    ghost var gets, sets := getSorter.table, setSorter.table;
    ok, made, keys := MergeGets(network, getSorter, setSorter);
    while !setSorter.IsEmpty()
      invariant Going(made, keys, gets, sets, getSorter.table, setSorter.table) && getSorter.IsEmpty()
      invariant network.made == old(network.made) + made && (ok <==> AllWorked(made))
      decreases |setSorter.table|
    {
      ghost var get, put := getSorter.table, setSorter.table;
      var k, bucket := setSorter.RemoveFirst();
      var worked := network.DoSimpleExchange(None, Some(bucket));
      ghost var x := Exchange(None, Some(bucket), worked);
      LookedUp(get, k);
      LookedUp(put, k);
      FewerLeft(put, k);
      GoingStep(made, keys, gets, sets, get, put, k, x);
      assert get - {k} == get;
      ok := ok && worked;
      made, keys := made + [x], keys + [k];
    }
    GoingEnds(made, keys, gets, sets, getSorter.table, setSorter.table);
  }

  lemma FewerLeft(t: Table, k: Key)
    requires k in t
    ensures |t - {k}| < |t|
  {
    assert (t - {k}).Keys == t.Keys - {k};
  }

  lemma NothingLeftOver(done: set<Key>, t: Table)
    requires t - done == map[]
    ensures t.Keys <= done
  {
    forall k | k in t ensures k in done {
      assert k !in done ==> k in t - done;
    }
  }

  /** The answer for one variable: an error, or properties, which may be of another type and which
      the variable may not take. */
  datatype ItemResult = ItemResult(result: KsResult, currProps: Option<nat>, taken: bool)

  predicate Readable(r: ItemResult) {
    r.result == Ok && r.currProps.Some?
  }

  /** What the last of the first `n` answers for `v` that says something says, or else `was`. */
  function Latest<R, T>(vars: seq<KscVariable>, res: seq<R>, says: R -> Option<T>, v: KscVariable, n: nat, was: T): (t: T)
    requires n <= |vars| == |res|
  {
    if n == 0 then was
    else if vars[n - 1] == v && says(res[n - 1]).Some? then says(res[n - 1]).value
    else Latest(vars, res, says, v, n - 1, was)
  }

  /** It is what answer `i` says if no later one says anything; without any, with `i` below zero,
      it is as it was. */
  lemma {:induction false} LatestIs<R, T>(vars: seq<KscVariable>, res: seq<R>, says: R -> Option<T>, v: KscVariable, n: nat, was: T, i: int)
    requires -1 <= i < n <= |vars| == |res|
    requires forall j :: i < j < n && vars[j] == v ==> says(res[j]).None?
    requires i >= 0 ==> vars[i] == v && says(res[i]).Some?
    ensures Latest(vars, res, says, v, n, was) == if i < 0 then was else says(res[i]).value
  {
    if n == 0 {
      assert Latest(vars, res, says, v, n, was) == was;
    } else {
      LatestStep(vars, res, says, v, n - 1, was);
      if i < n - 1 {
        LatestIs(vars, res, says, v, n - 1, was, i);
      } else {
        assert i == n - 1 && i >= 0;
      }
    }
  }

  lemma LatestStep<R, T>(vars: seq<KscVariable>, res: seq<R>, says: R -> Option<T>, v: KscVariable, n: nat, was: T)
    requires n < |vars| == |res|
    ensures Latest(vars, res, says, v, n + 1, was) ==
      if vars[n] == v && says(res[n]).Some? then says(res[n]).value else Latest(vars, res, says, v, n, was)
  {
    var m := n + 1;
    assert Latest(vars, res, says, v, m, was) ==
      if vars[m - 1] == v && says(res[m - 1]).Some? then says(res[m - 1]).value else Latest(vars, res, says, v, m - 1, was);
  }

  function NewResult(r: ItemResult): (k: Option<KsResult>) {
    Some(if r.result == Ok && r.currProps.None? then TypeMismatch else r.result)
  }

  function NewDirty(r: ItemResult): (d: Option<bool>) {
    if Readable(r) then Some(false) else None
  }

  function NewProps(r: ItemResult): (p: Option<nat>) {
    if Readable(r) && r.taken then r.currProps else None
  }

  function Written(r: KsResult): (k: Option<KsResult>) {
    Some(r)
  }

  function WrittenDirty(r: KsResult): (d: Option<bool>) {
    if r == Ok then Some(false) else None
  }

  /** Answer `i` is the last one for its variable. */
  predicate LastFor(vars: seq<KscVariable>, i: nat)
    requires i < |vars|
  {
    forall j :: i < j < |vars| ==> vars[j] != vars[i]
  }

  /** What a variable holds after all answers, of which `i` is the last for it: the error, or a
      mismatch if there are no properties; the properties, if it has taken them; and it is not
      dirty if it could be read. */
  lemma LastAnswer(vars: seq<KscVariable>, res: seq<ItemResult>, i: nat, result: KsResult, dirty: bool, props: nat)
    requires i < |vars| == |res| && LastFor(vars, i)
    ensures var v, r := vars[i], res[i];
      && Latest(vars, res, NewResult, v, |vars|, result) == (if r.result == Ok && r.currProps.None? then TypeMismatch else r.result)
      && (r.result == Ok && r.currProps.Some? ==> !Latest(vars, res, NewDirty, v, |vars|, dirty))
      && (r.result == Ok && r.currProps.Some? && r.taken ==> Latest(vars, res, NewProps, v, |vars|, props) == r.currProps.value)
  {
    var v := vars[i];
    LatestIs(vars, res, NewResult, v, |vars|, result, i);
    if Readable(res[i]) {
      LatestIs(vars, res, NewDirty, v, |vars|, dirty, i);
      if res[i].taken {
        LatestIs(vars, res, NewProps, v, |vars|, props, i);
      }
    }
  }

  /** A variable of which nothing could be read is as dirty as before, and one that has taken
      nothing has the same properties. */
  lemma {:induction false} NothingRead(vars: seq<KscVariable>, res: seq<ItemResult>, v: KscVariable, n: nat, dirty: bool, props: nat)
    requires n <= |vars| == |res|
    requires forall i :: 0 <= i < n && vars[i] == v ==> res[i].result != Ok || res[i].currProps.None? || !res[i].taken
    ensures Latest(vars, res, NewProps, v, n, props) == props
    ensures (forall i :: 0 <= i < n && vars[i] == v ==> res[i].result != Ok || res[i].currProps.None?) ==>
      Latest(vars, res, NewDirty, v, n, dirty) == dirty
  {
    if n > 0 {
      NothingRead(vars, res, v, n - 1, dirty, props);
    }
  }

  /** What a variable holds after writing. */
  lemma LastWritten(vars: seq<KscVariable>, res: seq<KsResult>, i: nat, result: KsResult, dirty: bool)
    requires i < |vars| == |res| && LastFor(vars, i)
    ensures Latest(vars, res, Written, vars[i], |vars|, result) == res[i]
    ensures res[i] == Ok ==> !Latest(vars, res, WrittenDirty, vars[i], |vars|, dirty)
  {
    LatestIs(vars, res, Written, vars[i], |vars|, result, i);
    if res[i] == Ok {
      LatestIs(vars, res, WrittenDirty, vars[i], |vars|, dirty, i);
    }
  }

  lemma {:induction false} NothingWritten(vars: seq<KscVariable>, res: seq<KsResult>, v: KscVariable, n: nat, dirty: bool)
    requires n <= |vars| == |res| && forall i :: 0 <= i < n && vars[i] == v ==> res[i] != Ok
    ensures Latest(vars, res, WrittenDirty, v, n, dirty) == dirty
  {
    if n > 0 {
      NothingWritten(vars, res, v, n - 1, dirty);
    }
  }

  /** Copies one answer. */
  method CopyOne(v: KscVariable, r: ItemResult) returns (ok: bool)
    modifies v`lastResult, v`dirty, v`currProps
    ensures ok == (Readable(r) && r.taken) && Some(v.lastResult) == NewResult(r)
    ensures v.lastResult == if r.result == Ok && r.currProps.None? then TypeMismatch else r.result
    ensures v.dirty == (old(v.dirty) && !Readable(r))
    ensures ok <==> r.result == Ok && r.currProps.Some? && r.taken
    ensures v.dirty == (old(v.dirty) && (r.result == Ok ==> r.currProps.None?))
    ensures ok ==> v.currProps == r.currProps.value
    ensures !ok ==> v.currProps == old(v.currProps)
    ensures v.currProps == if NewProps(r).Some? then NewProps(r).value else old(v.currProps)
  {
    ok := true;
    if r.result == Ok {
      if r.currProps.Some? {
        if r.taken {
          v.currProps := r.currProps.value;
        } else {
          ok := false;
        }
        v.dirty := false;
        v.lastResult := Ok;
      } else {
        v.lastResult := TypeMismatch;
        ok := false;
      }
    } else {
      v.lastResult := r.result;
      ok := false;
    }
  }

  /** Copies the answers of a request into the variables: of several answers for one variable the
      last one counts. A variable that could be read is no longer dirty. */
  method CopyGetVarResults(vars: seq<KscVariable>, res: seq<ItemResult>) returns (ok: bool)
    requires |vars| == |res|
    modifies (set v | v in vars)`lastResult, (set v | v in vars)`dirty, (set v | v in vars)`currProps
    ensures ok <==> forall i :: 0 <= i < |res| ==> Readable(res[i]) && res[i].taken
    ensures forall v :: v in vars ==>
      && v.lastResult == Latest(vars, res, NewResult, v, |vars|, old(v.lastResult))
      && v.dirty == Latest(vars, res, NewDirty, v, |vars|, old(v.dirty))
      && v.currProps == Latest(vars, res, NewProps, v, |vars|, old(v.currProps))
  {
    ok := true;
    for count := 0 to |res|
      invariant ok <==> forall i :: 0 <= i < count ==> Readable(res[i]) && res[i].taken
      invariant forall v :: v in vars ==>
        && v.lastResult == Latest(vars, res, NewResult, v, count, old(v.lastResult))
        && v.dirty == Latest(vars, res, NewDirty, v, count, old(v.dirty))
        && v.currProps == Latest(vars, res, NewProps, v, count, old(v.currProps))
    {
      var taken := CopyOne(vars[count], res[count]);
      ok := ok && taken;
      forall v | v in vars
        ensures v.lastResult == Latest(vars, res, NewResult, v, count + 1, old(v.lastResult))
        ensures v.dirty == Latest(vars, res, NewDirty, v, count + 1, old(v.dirty))
        ensures v.currProps == Latest(vars, res, NewProps, v, count + 1, old(v.currProps))
      {
        LatestStep(vars, res, NewResult, v, count, old(v.lastResult));
        LatestStep(vars, res, NewDirty, v, count, old(v.dirty));
        LatestStep(vars, res, NewProps, v, count, old(v.currProps));
      }
    }
  }

  /** Copies the results of writing variables; the dirty mark goes from those written. */
  method CopySetVarResults(vars: seq<KscVariable>, res: seq<KsResult>) returns (ok: bool)
    requires |vars| == |res|
    modifies (set v | v in vars)`lastResult, (set v | v in vars)`dirty
    ensures ok <==> forall i :: 0 <= i < |res| ==> res[i] == Ok
    ensures forall v :: v in vars ==>
      && v.lastResult == Latest(vars, res, Written, v, |vars|, old(v.lastResult))
      && v.dirty == Latest(vars, res, WrittenDirty, v, |vars|, old(v.dirty))
  {
    ok := true;
    for count := 0 to |vars|
      invariant ok <==> forall i :: 0 <= i < count ==> res[i] == Ok
      invariant forall v :: v in vars ==>
        && v.lastResult == Latest(vars, res, Written, v, count, old(v.lastResult))
        && v.dirty == Latest(vars, res, WrittenDirty, v, count, old(v.dirty))
    {
      vars[count].lastResult := res[count];
      if res[count] == Ok {
        vars[count].dirty := false;
      } else {
        ok := false;
      }
      forall v | v in vars
        ensures v.lastResult == Latest(vars, res, Written, v, count + 1, old(v.lastResult))
        ensures v.dirty == Latest(vars, res, WrittenDirty, v, count + 1, old(v.dirty))
      {
        LatestStep(vars, res, Written, v, count, old(v.lastResult));
        LatestStep(vars, res, WrittenDirty, v, count, old(v.dirty));
      }
    }
  }
}
