/** Paths of communication objects: components separated by slashes, found through an index of
    where they begin. */
module Paths {
  import opened Conversions
  import opened Wrappers

  const SIZE_MAX := 0xffff_ffff_ffff_ffff

  /** A path; `slash` holds where each component begins, and a final entry, `goUp` is zero for
      absolute paths. */
  datatype KsPath = KsPath(str: string, valid: bool, slash: seq<nat>, first: nat, last: nat, goUp: nat)

  /** The string class's way to clip a substring. */
  function Substr(s: string, first: nat, len: nat): (t: string) {
    if first < |s| then s[first..if len < |s| - first then first + len else |s|] else ""
  }

  predicate IsAbsolute(s: string) {
    s != "" && s[0] == '/'
  }

  /** How far a run of "./" and "../" reaches, and how often it goes up; it must not end in the
      middle. */
  function Climb(s: string, i: nat, up: nat): (r: (bool, nat, nat))
    requires i <= |s|
    ensures r.0 ==> i <= r.1 <= |s| && up <= r.2 && At(s, r.1) != '.'
    ensures r.0 ==> forall k :: i <= k < r.1 ==> s[k] == '.' || s[k] == '/'
    ensures r.0 && r.1 > i ==> s[r.1 - 1] == '/'
    decreases |s| - i
  {
    if At(s, i) != '.' then (true, i, up)
    else
      var twice := At(s, i + 1) == '.';
      var j := if twice then i + 2 else i + 1;
      if At(s, j) != '/' then (false, 0, 0) else Climb(s, j + 1, if twice then up + 1 else up)
  }

  /** A run of "./", for false, and "../", for true. */
  function Run(ups: seq<bool>): (s: string) {
    if ups == [] then "" else (if ups[0] then "../" else "./") + Run(ups[1..])
  }

  function Ups(ups: seq<bool>): (n: nat) {
    if ups == [] then 0 else (if ups[0] then 1 else 0) + Ups(ups[1..])
  }

  /** Climbing takes such a run, and goes up once more for each "../" in it. */
  lemma {:induction false} ClimbsRun(s: string, i: nat, up: nat, ups: seq<bool>)
    requires i + |Run(ups)| <= |s| && s[i..i + |Run(ups)|] == Run(ups) && At(s, i + |Run(ups)|) != '.'
    ensures Climb(s, i, up) == (true, i + |Run(ups)|, up + Ups(ups))
    decreases |ups|
  {
    if ups != [] {
      RunStarts(s, i, ups);
      var n := if ups[0] then 3 else 2;
      ClimbsRun(s, i + n, if ups[0] then up + 1 else up, ups[1..]);
      hide Run;
    }
  }

  lemma RunStarts(s: string, i: nat, ups: seq<bool>)
    requires ups != [] && i + |Run(ups)| <= |s| && s[i..i + |Run(ups)|] == Run(ups)
    ensures var n, rest := if ups[0] then 3 else 2, Run(ups[1..]);
      && |Run(ups)| == n + |rest| && s[i + n..i + n + |rest|] == rest
      && s[i] == '.' && s[i + n - 1] == '/' && (s[i + 1] == '.' <==> ups[0])
  {
    var rest, head := Run(ups[1..]), if ups[0] then "../" else "./";
    assert Run(ups) == head + rest;
    hide Run;
    Pieces(s, i, head, rest);
    assert s[i] == head[0] && s[i + 1] == head[1] && s[i + |head| - 1] == head[|head| - 1];
  }

  lemma Pieces(s: string, i: nat, head: string, rest: string)
    requires i + |head| + |rest| <= |s|
    ensures s[i..i + |head| + |rest|] == head + rest <==>
      s[i..i + |head|] == head && s[i + |head|..i + |head| + |rest|] == rest
    ensures s[i..i + |head|] == head ==> forall k :: 0 <= k < |head| ==> s[i + k] == head[k]
  {
    var t := s[i..i + |head| + |rest|];
    assert t == s[i..i + |head|] + s[i + |head|..i + |head| + |rest|];
    if t == head + rest {
      assert t[..|head|] == head && t[|head|..] == rest;
    }
    if s[i..i + |head|] == head {
      forall k | 0 <= k < |head| ensures s[i + k] == head[k] {
        assert s[i..i + |head|][k] == head[k];
      }
    }
  }

  /** And nothing else. */
  lemma {:induction false} RunClimbed(s: string, i: nat, up: nat) returns (ups: seq<bool>)
    requires i <= |s| && Climb(s, i, up).0
    ensures i + |Run(ups)| == Climb(s, i, up).1 && s[i..i + |Run(ups)|] == Run(ups)
    decreases |s| - i
  {
    ups := [];
    if At(s, i) == '.' {
      var twice := At(s, i + 1) == '.';
      var n, head := if twice then 3 else 2, if twice then "../" else "./";
      ClimbHead(s, i, up);
      var rest := RunClimbed(s, i + n, if twice then up + 1 else up);
      ups := [twice] + rest;
      assert ups[1..] == rest;
      assert Run(ups) == head + Run(rest);
      hide Run, Climb;
      Pieces(s, i, head, Run(rest));
    }
  }

  lemma ClimbHead(s: string, i: nat, up: nat)
    requires i <= |s| && Climb(s, i, up).0 && At(s, i) == '.'
    ensures var twice := At(s, i + 1) == '.';
      var n, head := if twice then 3 else 2, if twice then "../" else "./";
      && i + n <= |s| && s[i..i + n] == head
      && Climb(s, i, up) == Climb(s, i + n, if twice then up + 1 else up)
  {
  }

  /** Where the components start, if the beginning is in order. */
  function Start(s: string): (r: (bool, nat, nat))
    ensures r.0 ==> r.1 <= |s|
    ensures r.0 ==> forall k :: 0 <= k < r.1 ==> s[k] == '.' || s[k] == '/'
  {
    if s == "" then (false, 0, 0) else if s[0] == '/' then (true, 1, 0) else Climb(s, 0, 1)
  }

  /** No slash follows another from `i` on, nor stands at `i` after one. */
  predicate NoDouble(s: string, i: nat, wasSlash: bool)
    requires i <= |s|
    decreases |s| - i
  {
    i == |s| || (!(s[i] == '/' && wasSlash) && NoDouble(s, i + 1, s[i] == '/'))
  }

  function Slashes(s: string, i: nat): (n: nat)
    requires i <= |s|
    decreases |s| - i
  {
    if i == |s| then 0 else (if s[i] == '/' then 1 else 0) + Slashes(s, i + 1)
  }

  predicate ValidPath(s: string) {
    Start(s).0 && NoDouble(s, Start(s).1, Start(s).1 > 0)
  }

  lemma {:induction false} NoDoubleExactly(s: string, i: nat, wasSlash: bool)
    requires i <= |s|
    ensures NoDouble(s, i, wasSlash) <==>
      && (forall k :: i < k < |s| ==> !(s[k - 1] == '/' && s[k] == '/'))
      && !(wasSlash && i < |s| && s[i] == '/')
    decreases |s| - i
  {
    if i < |s| {
      NoDoubleExactly(s, i + 1, s[i] == '/');
    }
  }

  lemma {:induction false} SlashesCount(s: string, i: nat)
    requires i <= |s|
    ensures Slashes(s, i) == multiset(s[i..])['/']
    decreases |s| - i
  {
    if i < |s| {
      SlashesCount(s, i + 1);
      assert s[i..] == [s[i]] + s[i + 1..];
    }
  }

  /** Well-formed are exactly the paths that start with a slash, or else with a run of "./" and
      "../" that does not end in front of a dot, and hold no double slash. */
  lemma ValidExactly(s: string)
    ensures ValidPath(s) <==>
      && s != ""
      && (s[0] == '/' || exists ups :: Leads(s, ups))
      && forall k :: 0 < k < |s| ==> !(s[k - 1] == '/' && s[k] == '/')
  {
    if s != "" && s[0] != '/' {
      if Climb(s, 0, 1).0 {
        var ups := RunClimbed(s, 0, 1);
        assert Leads(s, ups);
      }
      if ups :| Leads(s, ups) {
        ClimbsRun(s, 0, 1, ups);
      }
    }
    if Start(s).0 {
      NoDoubleExactly(s, Start(s).1, Start(s).1 > 0);
      if s[0] != '/' {
        var ups := RunClimbed(s, 0, 1);
        RunSingle(s, ups);
      }
    }
  }

  predicate Leads(s: string, ups: seq<bool>) {
    |Run(ups)| <= |s| && s[..|Run(ups)|] == Run(ups) && At(s, |Run(ups)|) != '.'
  }

  lemma {:induction false} RunEnds(ups: seq<bool>)
    ensures var r := Run(ups);
      && (r != "" ==> r[0] == '.' && r[|r| - 1] == '/')
      && forall k :: 0 < k < |r| ==> !(r[k - 1] == '/' && r[k] == '/')
  {
    if ups != [] {
      RunEnds(ups[1..]);
    }
  }

  lemma RunSingle(s: string, ups: seq<bool>)
    requires |Run(ups)| <= |s| && s[..|Run(ups)|] == Run(ups)
    ensures forall k :: 0 < k < |Run(ups)| ==> !(s[k - 1] == '/' && s[k] == '/')
    ensures Run(ups) != "" ==> s[|Run(ups)| - 1] == '/'
  {
    var r := Run(ups);
    RunEnds(ups);
    assert forall k :: 0 <= k < |r| ==> s[k] == r[k];
  }

  /** Checks that a path is well-formed, and counts the slashes behind its start. */
  method CheckAndCount(s: string) returns (valid: bool, goUp: nat, slashes: nat)
    ensures valid <==> ValidPath(s)
    ensures valid ==> goUp == Start(s).2 && slashes == Slashes(s, Start(s).1)
  {
    var p: nat := 0;
    var wasSlash := false;
    goUp, slashes := 0, 0;
    if s == "" {
      return false, 0, 0;
    }
    if s[0] == '/' {
      wasSlash := true;
      p := 1;
    } else {
      goUp := 1;
      var dots := true;
      while dots
        invariant p <= |s| && (wasSlash <==> p > 0)
        invariant Climb(s, p, goUp) == Climb(s, 0, 1)
        invariant !dots ==> At(s, p) != '.'
        decreases |s| - p, dots
      {
        if At(s, p) == '.' {
          p := p + 1;
          wasSlash := false;
          if At(s, p) == '.' {
            p := p + 1;
            goUp := goUp + 1;
          }
          if At(s, p) == '/' {
            wasSlash := true;
            p := p + 1;
          } else {
            return false, 0, 0;
          }
        } else {
          dots := false;
        }
      }
    }
    ghost var start := p;
    while p < |s|
      invariant start <= p <= |s| && slashes + Slashes(s, p) == Slashes(s, start)
      invariant NoDouble(s, p, wasSlash) == NoDouble(s, start, start > 0)
    {
      if s[p] == '/' {
        if wasSlash {
          return false, 0, 0;
        }
        wasSlash := true;
        slashes := slashes + 1;
      } else {
        wasSlash := false;
      }
      p := p + 1;
    }
    valid := true;
  }

  /** Where the index begins: behind all leading slashes and dots. */
  function Skip(s: string, i: nat): (k: nat)
    requires i <= |s|
    ensures i <= k <= |s| && At(s, k) != '.' && At(s, k) != '/'
    decreases |s| - i
  {
    if i < |s| && (s[i] == '/' || s[i] == '.') then Skip(s, i + 1) else i
  }

  /** Where the components behind slashes begin. */
  function Starts(s: string, i: nat): (a: seq<nat>)
    requires i <= |s|
    ensures |a| == Slashes(s, i)
    decreases |s| - i
  {
    if i == |s| then [] else (if s[i] == '/' then [i + 1] else []) + Starts(s, i + 1)
  }

  /** The index of a path string. */
  function Index(s: string): (a: seq<nat>)
    ensures |a| == Slashes(s, Skip(s, 0)) + 2
  {
    [Skip(s, 0)] + Starts(s, Skip(s, 0)) + [SIZE_MAX]
  }

  /** Fills the index, which has space for `count` slashes. If some of these were skipped, the
      scan for them runs past the end of the string. */
  method FindSlashes(s: string, count: nat) returns (slash: Option<seq<nat>>)
    requires count >= Slashes(s, Skip(s, 0))
    ensures slash == if count == Slashes(s, Skip(s, 0)) then Some(Index(s)) else None
  {
    var si: nat := 0;
    while At(s, si) == '/' || At(s, si) == '.'
      invariant si <= |s| && Skip(s, si) == Skip(s, 0)
      decreases |s| - si
    {
      si := si + 1;
    }
    slash := ScanSlashes(s, si, count);
  }

  method ScanSlashes(s: string, start: nat, count: nat) returns (slash: Option<seq<nat>>)
    requires start <= |s| && count >= Slashes(s, start)
    ensures slash == if count == Slashes(s, start) then Some([start] + Starts(s, start) + [SIZE_MAX]) else None
  {
    var si := start;
    var found: seq<nat> := [si];
    while |found| < count + 1
      invariant start <= si <= |s| && 1 <= |found| <= count + 1
      invariant |found| - 1 + Slashes(s, si) == Slashes(s, start)
      invariant found + Starts(s, si) == [start] + Starts(s, start)
      decreases |s| - si
    {
      if si == |s| {
        return None;
      }
      if s[si] == '/' {
        found := found + [si + 1];
      }
      si := si + 1;
    }
    assert Starts(s, si) == [] && found + Starts(s, si) == found;
    slash := Some(found + [SIZE_MAX]);
  }

  function Invalid(s: string): (p: KsPath) {
    KsPath(s, false, [0, 0], 0, 0, 0)
  }

  /** The path object for a string. */
  function Parsed(s: string): (p: KsPath) {
    if ValidPath(s) then KsPath(s, true, Index(s), 0, Slashes(s, Start(s).1), Start(s).2) else Invalid(s)
  }

  /** The index covers the counted slashes: none is skipped with the leading dots. */
  predicate Scannable(s: string) {
    ValidPath(s) ==> Slashes(s, Skip(s, 0)) == Slashes(s, Start(s).1)
  }

  /** Skipping goes on where the climbing start ends, and passes slashes only. */
  lemma {:induction false} SkipsOn(s: string, i: nat, start: nat)
    requires i <= start <= |s| && forall k :: i <= k < start ==> s[k] == '.' || s[k] == '/'
    ensures Skip(s, i) == Skip(s, start) && Slashes(s, start) >= Slashes(s, Skip(s, i))
    decreases |s| - i
  {
    if i < start {
      SkipsOn(s, i + 1, start);
    } else if i < |s| && (s[i] == '.' || s[i] == '/') {
      SkipsOn(s, i + 1, i + 1);
    }
  }

  /** The path object, unless its string is read past its end. */
  method FromString(s: string) returns (p: Option<KsPath>)
    ensures p == if Scannable(s) then Some(Parsed(s)) else None
  {
    var valid, goUp, count := CheckAndCount(s);
    if valid {
      SkipsOn(s, 0, Start(s).1);
      var slash := FindSlashes(s, count);
      if slash == None {
        return None;
      }
      p := Some(KsPath(s, true, slash.value, 0, |slash.value| - 2, goUp));
    } else {
      p := Some(Invalid(s));
    }
  }

  function Size(p: KsPath): (n: nat)
    requires p.first <= p.last + 1
  {
    if p.valid then p.last - p.first + 1 else 0
  }

  function Component(p: KsPath, i: nat): (s: string)
    requires p.first + i + 1 < |p.slash| && p.slash[p.first + i] < p.slash[p.first + i + 1]
  {
    Substr(p.str, p.slash[p.first + i], p.slash[p.first + i + 1] - p.slash[p.first + i] - 1)
  }

  /** The components of a string: `a` is where the current one begins, `i` how far it is read. */
  function Split(s: string, a: nat, i: nat): (c: seq<string>)
    requires a <= i <= |s|
    ensures |c| == Slashes(s, i) + 1
    decreases |s| - i
  {
    if i == |s| then [s[a..]]
    else if s[i] == '/' then [s[a..i]] + Split(s, i + 1, i + 1)
    else Split(s, a, i + 1)
  }

  function Join(c: seq<string>): (s: string)
    requires c != []
  {
    if |c| == 1 then c[0] else c[0] + "/" + Join(c[1..])
  }

  /** Splitting cuts at every slash, and at nothing else. */
  lemma {:induction false} SplitJoin(s: string, a: nat, i: nat)
    requires a <= i <= |s| && '/' !in s[a..i]
    ensures Join(Split(s, a, i)) == s[a..]
    ensures forall k :: 0 <= k < |Split(s, a, i)| ==> '/' !in Split(s, a, i)[k]
    decreases |s| - i
  {
    if i < |s| {
      if s[i] == '/' {
        SplitJoin(s, i + 1, i + 1);
        assert s[a..] == s[a..i] + "/" + s[i + 1..];
        assert Split(s, a, i)[1..] == Split(s, i + 1, i + 1);
      } else {
        assert s[a..i + 1] == s[a..i] + [s[i]];
        SplitJoin(s, a, i + 1);
      }
    }
  }

  lemma SplitStep(s: string, a: nat, i: nat)
    requires a <= i <= |s|
    ensures Split(s, a, i) ==
      if i == |s| then [s[a..]] else if s[i] == '/' then [s[a..i]] + Split(s, i + 1, i + 1) else Split(s, a, i + 1)
  {
  }

  /** The index entries of a string that is read up to `i`, its current component from `a`. */
  function Entries(s: string, a: nat, i: nat): (x: seq<nat>)
    requires a <= i <= |s|
    ensures |x| == Slashes(s, i) + 2
  {
    [a] + Starts(s, i) + [SIZE_MAX]
  }

  lemma {:induction false} EntriesRise(s: string, a: nat, i: nat, k: nat)
    requires a <= i <= |s| < SIZE_MAX && k + 1 < |Entries(s, a, i)|
    ensures a <= Entries(s, a, i)[k] < Entries(s, a, i)[k + 1] && Entries(s, a, i)[k] <= |s|
    ensures k > 0 ==> i < Entries(s, a, i)[k] && s[Entries(s, a, i)[k] - 1] == '/'
    ensures Entries(s, a, i)[k + 1] <= |s| ==> s[Entries(s, a, i)[k + 1] - 1] == '/'
    decreases |s| - i
  {
    if i < |s| {
      if s[i] == '/' {
        assert Entries(s, a, i) == [a] + Entries(s, i + 1, i + 1);
        if k > 0 {
          EntriesRise(s, i + 1, i + 1, k - 1);
        }
      } else {
        assert Entries(s, a, i) == Entries(s, a, i + 1);
        EntriesRise(s, a, i + 1, k);
      }
    }
  }

  /** The piece of a string between two neighbouring index entries. */
  function Piece(s: string, x: seq<nat>, k: nat): (t: string)
    requires k + 1 < |x| && x[k] < x[k + 1]
  {
    Substr(s, x[k], x[k + 1] - x[k] - 1)
  }

  /** Component `k` found through the index is component `k` of the split string. */
  lemma {:induction false} PieceIsComponent(s: string, a: nat, i: nat, k: nat)
    requires a <= i <= |s| < SIZE_MAX && k + 1 < |Entries(s, a, i)|
    ensures Entries(s, a, i)[k] < Entries(s, a, i)[k + 1]
    ensures Piece(s, Entries(s, a, i), k) == Split(s, a, i)[k]
    decreases |s| - i
  {
    hide Entries, Split, Piece;
    EntriesRise(s, a, i, k);
    SplitStep(s, a, i);
    if i == |s| {
      EntriesEnd(s, a);
      PieceAt(s, Entries(s, a, i), 0, |s|);
    } else {
      EntriesStep(s, a, i);
      if s[i] != '/' {
        PieceIsComponent(s, a, i + 1, k);
      } else if k > 0 {
        var x := Entries(s, i + 1, i + 1);
        PieceIsComponent(s, i + 1, i + 1, k - 1);
        PieceBehind(s, a, x, k - 1);
      } else {
        EntriesFirst(s, a, i);
        EntriesFirst(s, i + 1, i + 1);
        PieceAt(s, Entries(s, a, i), 0, i);
      }
    }
  }

  lemma PieceAt(s: string, x: seq<nat>, k: nat, e: nat)
    requires k + 1 < |x| && x[k] < x[k + 1] && x[k] <= e <= |s| < SIZE_MAX
    requires x[k + 1] == if e == |s| then SIZE_MAX else e + 1
    ensures Piece(s, x, k) == s[x[k]..e]
  {
  }

  lemma PieceBehind(s: string, a: nat, x: seq<nat>, k: nat)
    requires k + 1 < |x| && x[k] < x[k + 1]
    ensures ([a] + x)[k + 1] < ([a] + x)[k + 2] && Piece(s, [a] + x, k + 1) == Piece(s, x, k)
  {
  }

  lemma EntriesEnd(s: string, a: nat)
    requires a <= |s|
    ensures Entries(s, a, |s|) == [a, SIZE_MAX]
  {
  }

  /** A path whose index is that of its string, with nothing skipped but the start. */
  predicate WellIndexed(p: KsPath, start: nat) {
    && p.valid && p.first == 0 && start <= |p.str| < SIZE_MAX
    && p.slash == Entries(p.str, start, start) && p.last + 2 == |p.slash|
    && Skip(p.str, 0) == start
    && NoDouble(p.str, start, true)
    && (start > 0 ==> p.str[start - 1] == '/')
  }

  /** Everything but the climbing start of a path. */
  function Components(p: KsPath, start: nat): (c: seq<string>)
    requires start <= |p.str|
  {
    Split(p.str, start, start)
  }

  /** Well-formed paths whose first component does not start with a dot. */
  predicate Plain(s: string) {
    ValidPath(s) ==> At(s, Start(s).1) != '.'
  }

  lemma {:induction false} SkipStart(s: string, i: nat, start: nat)
    requires i <= start <= |s| && At(s, start) != '.' && At(s, start) != '/'
    requires forall k :: i <= k < start ==> s[k] == '.' || s[k] == '/'
    ensures Skip(s, i) == start
    decreases start - i
  {
    if i < start {
      SkipStart(s, i + 1, start);
    }
  }

  lemma ClimbEnds(s: string, i: nat, up: nat)
    requires i <= |s| && Climb(s, i, up).0
    ensures Climb(s, i, up).1 > i ==> s[Climb(s, i, up).1 - 1] == '/'
    ensures Climb(s, i, up).1 == i || up >= 1 ==> Climb(s, i, up).2 >= up
  {
  }

  /** For a well-formed plain path the index has exactly the components of the string behind its
      start, and the path object finds each of them. */
  lemma ParsedComponents(s: string)
    requires ValidPath(s) && Plain(s) && |s| < SIZE_MAX
    ensures Scannable(s) && WellIndexed(Parsed(s), Start(s).1)
    ensures Size(Parsed(s)) == |Components(Parsed(s), Start(s).1)|
    ensures (Parsed(s).goUp == 0) == IsAbsolute(s) && (IsAbsolute(s) ==> Start(s).1 == 1)
  {
    var start := Start(s).1;
    if s[0] != '/' {
      ClimbEnds(s, 0, 1);
    }
    if start < |s| {
      assert s[start] != '/';
    }
    SkipStart(s, 0, start);
    assert NoDouble(s, start, true);
  }

  lemma ComponentAt(p: KsPath, start: nat, k: nat)
    requires WellIndexed(p, start) && k < Size(p)
    ensures p.slash[k] < p.slash[k + 1] && Component(p, k) == Components(p, start)[k]
  {
    PieceIsComponent(p.str, start, start, k);
  }

  lemma {:induction false} SplitShift(u: string, v: string, a: nat, i: nat)
    requires a <= i <= |v|
    ensures Split(u + v, |u| + a, |u| + i) == Split(v, a, i)
    ensures NoDouble(v, i, true) ==> NoDouble(u + v, |u| + i, true)
    ensures NoDouble(v, i, false) ==> NoDouble(u + v, |u| + i, false)
    decreases |v| - i
  {
    assert (u + v)[|u| + a..] == v[a..];
    if i < |v| {
      assert (u + v)[|u| + i] == v[i];
      if v[i] == '/' {
        assert (u + v)[|u| + a..|u| + i] == v[a..i];
        SplitShift(u, v, i + 1, i + 1);
      } else {
        SplitShift(u, v, a, i + 1);
      }
    }
  }

  lemma EntriesStep(s: string, a: nat, i: nat)
    requires a <= i < |s|
    ensures Entries(s, a, i) == if s[i] == '/' then [a] + Entries(s, i + 1, i + 1) else Entries(s, a, i + 1)
  {
    var rest := Starts(s, i + 1);
    if s[i] == '/' {
      assert [a] + ([i + 1] + rest) + [SIZE_MAX] == [a] + ([i + 1] + rest + [SIZE_MAX]);
    } else {
      assert [] + rest == rest;
    }
  }

  /** Putting a string behind the start of component `k` keeps the components before, and goes
      on with those of the string. */
  lemma {:induction false} SplitCut(s: string, a: nat, i: nat, k: nat, v: string)
    requires a <= i <= |s| < SIZE_MAX && k <= Slashes(s, i) && (k == 0 ==> a == i)
    ensures var cut := Entries(s, a, i)[k];
      i <= cut <= |s| && Split(s[..cut] + v, a, i) == Split(s, a, i)[..k] + Split(v, 0, 0)
    decreases |s| - i
  {
    hide Entries, Split, Slashes;
    SlashesStep(s, i);
    EntriesRise(s, a, i, k);
    var cut := Entries(s, a, i)[k];
    var t := s[..cut] + v;
    if k == 0 {
      EntriesFirst(s, a, i);
      SplitShift(s[..cut], v, 0, 0);
      assert Split(s, a, i)[..0] == [];
    } else {
      EntriesStep(s, a, i);
      assert t[i] == s[i] && t[a..i] == s[a..i];
      SplitStep(s, a, i);
      SplitStep(t, a, i);
      if s[i] == '/' {
        SplitCut(s, i + 1, i + 1, k - 1, v);
        Behind(s[a..i], Split(s, i + 1, i + 1), k, Split(v, 0, 0));
      } else {
        SplitCut(s, a, i + 1, k, v);
      }
    }
  }

  lemma SlashesStep(s: string, i: nat)
    requires i <= |s|
    ensures Slashes(s, i) == if i == |s| then 0 else (if s[i] == '/' then 1 else 0) + Slashes(s, i + 1)
  {
  }

  lemma Behind(x: string, c: seq<string>, k: nat, d: seq<string>)
    requires 0 < k <= |c| + 1
    ensures ([x] + c)[..k] + d == [x] + (c[..k - 1] + d)
  {
  }

  lemma EntriesFirst(s: string, a: nat, i: nat)
    requires a <= i <= |s|
    ensures Entries(s, a, i)[0] == a
  {
  }

  /** Nor does it bring two slashes together. */
  lemma {:induction false} NoDoubleCut(s: string, i: nat, w: bool, cut: nat, v: string)
    requires i <= cut <= |s| && NoDouble(s, i, w) && NoDouble(v, 0, true)
    requires if i == cut then w else s[cut - 1] == '/'
    ensures NoDouble(s[..cut] + v, i, w)
    decreases cut - i
  {
    if i == cut {
      SplitShift(s[..cut], v, 0, 0);
    } else {
      assert (s[..cut] + v)[i] == s[i];
      NoDoubleCut(s, i + 1, s[i] == '/', cut, v);
    }
  }

  /** The string of a relative path put in the place of the last components of another. */
  function ComposedString(context: KsPath, rel: KsPath): (s: string)
    requires rel.goUp <= context.last + 1 && context.last + 1 - rel.goUp < |context.slash|
    requires rel.first <= rel.last && rel.last + 1 < |rel.slash|
    requires rel.slash[rel.first] <= rel.slash[rel.last + 1]
  {
    Substr(context.str, 0, context.slash[context.last + 1 - rel.goUp]) +
    Substr(rel.str, rel.slash[rel.first], rel.slash[rel.last + 1] - rel.slash[rel.first])
  }

  /** Resolving a relative path: it takes the place of as many components of the context as it
      goes up; the context must have that many. */
  function Resolved(context: KsPath, rel: KsPath): (p: KsPath)
    requires context.first == 0 && context.last + 2 == |context.slash| && rel.first == 0 && rel.last + 2 == |rel.slash|
    requires rel.slash[0] <= rel.slash[rel.last + 1]
  {
    if rel.goUp == 0 then rel
    else if rel.goUp <= Size(context) then
      var s := ComposedString(context, rel);
      KsPath(s, true, Index(s), 0, Size(context) - rel.goUp + rel.last, 0)
    else Invalid("//")
  }

  /** The path put together has the kept components of the context, followed by those of the
      relative path. */
  lemma ResolvedComponents(context: KsPath, start: nat, rel: KsPath, relStart: nat)
    requires WellIndexed(context, start) && WellIndexed(rel, relStart) && 0 < rel.goUp <= Size(context)
    requires |context.str| + |rel.str| < SIZE_MAX
    ensures rel.slash[0] <= rel.slash[rel.last + 1]
    ensures var p := Resolved(context, rel);
      && WellIndexed(p, start) && p.goUp == 0 && start <= |p.str|
      && Components(p, start) == Components(context, start)[..Size(context) - rel.goUp] + Components(rel, relStart)
      && (start > 0 ==> p.str[0] == context.str[0])
  {
    RestIs(rel, relStart);
    var cut := ComposedIs(context, start, rel, relStart);
    CutTogether(context.str, start, Size(context) - rel.goUp, rel.str, relStart);
    hide NoDouble, Skip, Substr, ComposedString, Split, Slashes;
  }

  lemma CutTogether(s: string, start: nat, k: nat, r: string, relStart: nat)
    requires start <= |s| < SIZE_MAX && Skip(s, 0) == start && NoDouble(s, start, true) && k <= Slashes(s, start)
    requires relStart <= |r| && NoDouble(r, relStart, true) && Skip(r, 0) == relStart
    ensures start <= Entries(s, start, start)[k] <= |s|
    ensures var t := s[..Entries(s, start, start)[k]] + r[relStart..];
      && Skip(t, 0) == start && start <= |t| && NoDouble(t, start, true)
      && Split(t, start, start) == Split(s, start, start)[..k] + Split(r, relStart, relStart)
  {
    EntriesRise(s, start, start, k);
    EntriesFirst(s, start, start);
    hide NoDouble, Entries, Skip;
    var v := r[relStart..];
    SplitShift(r[..relStart], v, 0, 0);
    assert r[..relStart] + v == r;
    NoDoubleRest(r, relStart, true);
    SplitCut(s, start, start, k, v);
    var cut := Entries(s, start, start)[k];
    NoDoubleCut(s, start, true, cut, v);
    ComposedSkip(s, start, cut, v);
  }

  lemma ComposedIs(context: KsPath, start: nat, rel: KsPath, relStart: nat) returns (cut: nat)
    requires WellIndexed(context, start) && WellIndexed(rel, relStart) && 0 < rel.goUp <= Size(context)
    ensures Size(context) - rel.goUp <= Slashes(context.str, start)
    ensures cut == Entries(context.str, start, start)[Size(context) - rel.goUp]
    ensures start <= cut <= |context.str| && (cut == start || (start < |context.str| && context.str[cut - 1] == '/'))
    ensures rel.slash[0] <= rel.slash[rel.last + 1]
    ensures ComposedString(context, rel) == context.str[..cut] + rel.str[relStart..]
  {
    hide Split, NoDouble;
    var k := Size(context) - rel.goUp;
    EntriesRise(context.str, start, start, k);
    RestIs(rel, relStart);
    cut := Entries(context.str, start, start)[k];
  }

  lemma RestIs(rel: KsPath, start: nat)
    requires WellIndexed(rel, start)
    ensures rel.slash[0] == start && rel.slash[rel.last + 1] == SIZE_MAX
    ensures Substr(rel.str, start, SIZE_MAX - start) == rel.str[start..]
    ensures start == |rel.str| || (rel.str[start] != '.' && rel.str[start] != '/')
  {
  }

  lemma {:induction false} NoDoubleRest(s: string, i: nat, w: bool)
    requires i <= |s| && NoDouble(s, i, w)
    ensures NoDouble(s[i..], 0, w)
    decreases |s| - i
  {
    if i < |s| {
      NoDoubleRest(s, i + 1, s[i] == '/');
      NoDoubleTail(s[i..], 1, s[i] == '/');
      assert s[i..][1..] == s[i + 1..];
    }
  }

  lemma {:induction false} NoDoubleTail(s: string, i: nat, w: bool)
    requires i <= |s|
    ensures NoDouble(s[i..], 0, w) ==> NoDouble(s, i, w)
    decreases |s| - i
  {
    SplitShift(s[..i], s[i..], 0, 0);
    assert s[..i] + s[i..] == s;
  }

  lemma ComposedSkip(s: string, start: nat, cut: nat, v: string)
    requires start <= cut <= |s| && Skip(s, 0) == start
    requires v == "" || (v[0] != '.' && v[0] != '/')
    requires cut == start || start < |s|
    ensures Skip(s[..cut] + v, 0) == start
  {
    var t := s[..cut] + v;
    SkippedDots(s, 0);
    assert forall k :: 0 <= k < start ==> t[k] == s[k];
    SkipStart(t, 0, start);
  }

  lemma {:induction false} SkippedDots(s: string, i: nat)
    requires i <= |s|
    ensures forall k :: i <= k < Skip(s, i) ==> s[k] == '.' || s[k] == '/'
    decreases |s| - i
  {
    if i < |s| {
      SkippedDots(s, i + 1);
    }
  }

  /** Resolves `rel` against a context: a path put together is indexed anew. */
  method Resolve(context: KsPath, rel: KsPath, ghost start: nat, ghost relStart: nat) returns (p: KsPath)
    requires WellIndexed(context, start) && WellIndexed(rel, relStart) && |context.str| + |rel.str| < SIZE_MAX
    ensures rel.slash[0] <= rel.slash[rel.last + 1] && p == Resolved(context, rel)
  {
    RestIs(rel, relStart);
    if rel.goUp == 0 {
      return rel;
    }
    if rel.goUp > Size(context) {
      return Invalid("//");
    }
    ResolvedComponents(context, start, rel, relStart);
    var s := ComposedString(context, rel);
    var slash := FindSlashes(s, Size(context) - rel.goUp + rel.last);
    p := KsPath(s, true, slash.value, 0, |slash.value| - 2, 0);
  }

  /** Parsing the string that was put together from an absolute context gives the same path
      object. */
  lemma ResolvedReparses(context: KsPath, rel: KsPath, relStart: nat)
    requires WellIndexed(context, 1) && WellIndexed(rel, relStart) && 0 < rel.goUp <= Size(context)
    requires context.str[0] == '/' && |context.str| + |rel.str| < SIZE_MAX
    ensures rel.slash[0] <= rel.slash[rel.last + 1]
    ensures Resolved(context, rel) == Parsed(Resolved(context, rel).str)
  {
    ResolvedComponents(context, 1, rel, relStart);
  }

  /** The number of percent signs between two positions. */
  function Percents(s: string, a: nat, b: nat): (n: nat)
    requires a <= b <= |s|
    ensures n <= b - a
  {
    if a == b then 0 else (if s[b - 1] == '%' then 1 else 0) + Percents(s, a, b - 1)
  }

  /** A position next to a slash, or at either end. */
  predicate Boundary(s: string, b: nat) {
    b <= |s| && (b == 0 || b == |s| || s[b - 1] == '/' || s[b] == '/')
  }

  lemma PercentsAdd(s: string, a: nat, b: nat, c: nat)
    requires a <= b <= c <= |s|
    ensures Percents(s, a, c) == Percents(s, a, b) + Percents(s, b, c)
  {
  }

  lemma {:induction false} PercentsShift(s: string, n: nat, a: nat, b: nat)
    requires a <= b && n + b <= |s|
    ensures Percents(s, n + a, n + b) == Percents(s[n..], a, b)
    decreases b
  {
    if a < b {
      PercentsShift(s, n, a, b - 1);
    }
  }

  lemma HeadPercents(s: string, n: nat)
    requires s != "" && Decoded(s).Some? && n == if s[0] == '%' then 3 else 1
    ensures n <= |s| && Percents(s, 0, n) == if s[0] == '%' then 1 else 0
  {
    if s[0] == '%' {
      assert s[1] != '%' && s[2] != '%';
      assert Percents(s, 0, 1) == 1 && Percents(s, 0, 2) == 1;
    } else {
      assert Percents(s, 0, 0) == 0;
    }
  }

  /** The first token of a string that can be decoded, and of its start up to a boundary. */
  lemma DecodedHead(s: string, b: nat) returns (n: nat, c: char)
    requires s != "" && Decoded(s).Some? && Boundary(s, b) && b > 0
    ensures n == (if s[0] == '%' then 3 else 1) && n <= b && Boundary(s[n..], b - n)
    ensures Decoded(s) == Prepend([c], Decoded(s[n..])) && Decoded(s[n..]).Some?
    ensures Decoded(s[..b]) == Prepend([c], Decoded(s[..b][n..]))
  {
    n := if s[0] == '%' then 3 else 1;
    c := if s[0] == '%' then FromPercent(s[1], s[2]) else s[0];
  }

  /** No escape reaches over a boundary, so a string is decoded piece by piece. */
  lemma {:induction false} DecodeAt(s: string, b: nat)
    requires Decoded(s).Some? && Boundary(s, b)
    ensures Decoded(s[..b]).Some? && Decoded(s[b..]).Some?
    ensures Decoded(s).value == Decoded(s[..b]).value + Decoded(s[b..]).value
    decreases |s|
  {
    if b == 0 {
      assert s[..b] == "" && s[b..] == s;
    } else {
      hide Decoded, Boundary;
      var n, c := DecodedHead(s, b);
      var rest := s[n..];
      DecodeAt(rest, b - n);
      Slices(s, n, b);
      Associate([c], Decoded(rest[..b - n]).value, Decoded(s[b..]).value);
    }
  }

  lemma Slices(s: string, n: nat, b: nat)
    requires n <= b <= |s|
    ensures s[..b][n..] == s[n..][..b - n] && s[n..][b - n..] == s[b..]
  {
  }

  lemma Associate(t: string, u: string, v: string)
    ensures t + (u + v) == (t + u) + v
  {
  }

  lemma {:induction false} DecodedSize(s: string)
    requires Decoded(s).Some?
    ensures |Decoded(s).value| == |s| - 2 * Percents(s, 0, |s|)
    decreases |s|
  {
    if s != "" {
      hide Percents, Decoded;
      var n, c := DecodedHead(s, |s|);
      DecodedSize(s[n..]);
      PercentsShift(s, n, 0, |s| - n);
      PercentsAdd(s, 0, n, |s|);
      HeadPercents(s, n);
    }
  }

  lemma {:induction false} PercentsPrefix(s: string, b: nat, c: nat)
    requires b <= c <= |s|
    ensures Percents(s[..c], 0, b) == Percents(s, 0, b)
  {
    if b > 0 {
      PercentsPrefix(s, b - 1, c);
    }
  }

  /** The index of a decoded path: every escape before an entry has moved it by two. */
  function Shrunk(s: string, slash: seq<nat>): (t: seq<int>)
    requires |slash| >= 2 && forall k :: 0 <= k < |slash| - 1 ==> slash[0] <= slash[k] <= |s|
    ensures |t| == |slash|
  {
    seq(|slash|, k requires 0 <= k < |slash| =>
      if k < |slash| - 1 then slash[k] - 2 * Percents(s, slash[0], slash[k]) else slash[k])
  }

  lemma AllRise(p: KsPath, start: nat)
    requires WellIndexed(p, start)
    ensures forall k :: 0 <= k < |p.slash| - 1 ==> start <= p.slash[k] <= |p.str|
    ensures p.slash[0] == start
  {
    forall k | 0 <= k < |p.slash| - 1 ensures start <= p.slash[k] <= |p.str| {
      EntriesRise(p.str, start, start, k);
    }
  }

  lemma NoPercents(s: string, b: nat)
    requires b <= |s| && forall k :: 0 <= k < b ==> s[k] == '.' || s[k] == '/'
    ensures Percents(s, 0, b) == 0
  {
  }

  /** An entry stays behind what the string before it is decoded to. */
  lemma EntryMoves(p: KsPath, start: nat, k: nat)
    requires WellIndexed(p, start) && k + 1 < |p.slash| && Decoded(p.str).Some?
    ensures start <= p.slash[k] <= |p.str| && Boundary(p.str, p.slash[k])
    ensures Decoded(p.str[..p.slash[k]]).Some?
    ensures p.slash[k] - 2 * Percents(p.str, start, p.slash[k]) == |Decoded(p.str[..p.slash[k]]).value|
  {
    hide Decoded, Split, NoDouble, Percents;
    EntriesRise(p.str, start, start, k);
    SkippedDots(p.str, 0);
    NoPercents(p.str, start);
    PercentsAdd(p.str, 0, start, p.slash[k]);
    DecodeAt(p.str, p.slash[k]);
    DecodedSize(p.str[..p.slash[k]]);
    PercentsPrefix(p.str, p.slash[k], p.slash[k]);
  }

  method CountPercents(s: string, from: nat, to: nat) returns (count: nat)
    requires from <= to <= |s|
    ensures count == Percents(s, from, to)
  {
    count := 0;
    for j := from to to
      invariant count == Percents(s, from, j)
    {
      if s[j] == '%' {
        count := count + 1;
      }
    }
  }

  /** Decodes a path in place, and corrects its index entry by entry. */
  method DecodePercents(p: KsPath, ghost start: nat) returns (res: Decoding, p': KsPath)
    requires WellIndexed(p, start)
    ensures res == DecodingOf(p.str) && (res.Text? <==> Decoded(p.str).Some?)
    ensures !res.Text? ==> p' == p
    ensures forall k :: 0 <= k < |p.slash| - 1 ==> start <= p.slash[k] <= |p.str|
    ensures res.Text? ==> p'.str == Decoded(p.str).value && p'.slash == Shrunk(p.str, p.slash)
    ensures res.Text? ==> p' == p.(str := p'.str, slash := p'.slash)
  {
    DecodesNot(p.str);
    hide Split, NoDouble, Skip, Decoded, Overruns;
    res := StringFromPercent(p.str);
    AllRise(p, start);
    if !res.Text? {
      return res, p;
    }
    var slash: seq<nat> := p.slash;
    var count, from, i := 0, p.slash[0], 1;
    while i < |slash| - 1
      invariant 1 <= i <= |slash| - 1 && |slash| == |p.slash|
      invariant from == p.slash[i - 1] && count == Percents(p.str, p.slash[0], from)
      invariant forall k :: 0 <= k < i ==> slash[k] == Shrunk(p.str, p.slash)[k]
      invariant forall k :: i <= k < |slash| ==> slash[k] == p.slash[k]
    {
      var next := slash[i];
      EntriesRise(p.str, start, start, i - 1);
      var more := CountPercents(p.str, from, next);
      PercentsAdd(p.str, p.slash[0], from, next);
      count := count + more;
      from := next;
      EntryMoves(p, start, i);
      slash := slash[i := slash[i] - 2 * count];
      i := i + 1;
    }
    p' := p.(str := res.text, slash := slash);
  }

  /** The three parts of a string around component `k` are decoded one by one. */
  lemma AroundComponent(p: KsPath, start: nat, k: nat, e: nat)
    requires WellIndexed(p, start) && k < Size(p) && Decoded(p.str).Some?
    requires e == if k + 1 < Size(p) then p.slash[k + 1] - 1 else |p.str|
    ensures p.slash[k] <= e <= |p.str|
    ensures var s, a := p.str, p.slash[k];
      && Decoded(s[..a]).Some? && Decoded(s[a..e]).Some? && Decoded(s[e..]).Some?
      && Decoded(s).value == Decoded(s[..a]).value + Decoded(s[a..e]).value + Decoded(s[e..]).value
      && s[a..e] == Components(p, start)[k]
  {
    hide Decoded, Split, Entries, NoDouble, Skip, Boundary;
    ComponentBounds(p, start, k, e);
    var s, a := p.str, p.slash[k];
    DecodeAt(s, a);
    DecodeAt(s[a..], e - a);
    assert s[a..][..e - a] == s[a..e] && s[a..][e - a..] == s[e..];
    var u, v, w := Decoded(s[..a]).value, Decoded(s[a..e]).value, Decoded(s[e..]).value;
    assert u + (v + w) == u + v + w;
  }

  lemma ComponentBounds(p: KsPath, start: nat, k: nat, e: nat)
    requires WellIndexed(p, start) && k < Size(p)
    requires e == if k + 1 < Size(p) then p.slash[k + 1] - 1 else |p.str|
    ensures p.slash[k] <= e <= |p.str| && p.str[p.slash[k]..e] == Components(p, start)[k]
    ensures Boundary(p.str, p.slash[k]) && Boundary(p.str[p.slash[k]..], e - p.slash[k])
  {
    hide NoDouble, Skip, Split;
    var s, a := p.str, p.slash[k];
    EntriesRise(s, start, start, k);
    PieceIsComponent(s, start, start, k);
    hide Entries;
    if k + 1 < Size(p) {
      EntriesRise(s, start, start, k + 1);
      assert s[e] == '/' && s[a..][e - a] == s[e];
    }
  }

  lemma SubstrMiddle(u: string, v: string, w: string, first: nat, len: nat)
    requires first == |u| && (len == |v| || (w == "" && len >= |v|))
    ensures Substr(u + v + w, first, len) == v
  {
  }

  lemma PieceSize(s: string, a: nat, e: nat)
    requires a <= e <= |s| && Decoded(s[a..e]).Some?
    ensures |Decoded(s[a..e]).value| == e - a - 2 * Percents(s, a, e)
  {
    hide Decoded, Percents;
    DecodedSize(s[a..e]);
    PercentsShift(s, a, 0, e - a);
    PercentsPrefix(s[a..], e - a, e - a);
    assert s[a..][..e - a] == s[a..e];
  }

  lemma NoPercentAt(s: string, e: nat)
    requires e < |s| && s[e] != '%'
    ensures Percents(s, e, e + 1) == 0
  {
    assert Percents(s, e, e) == 0;
  }

  /** Decoding commutes with splitting: component `k` of a decoded path, found through the
      corrected index, is the decoded component `k`, whatever characters were decoded. */
  lemma DecodedComponents(p: KsPath, start: nat, k: nat)
    requires WellIndexed(p, start) && k < Size(p) && Decoded(p.str).Some?
    ensures forall j :: 0 <= j < |p.slash| - 1 ==> p.slash[0] <= p.slash[j] <= |p.str|
    ensures Decoded(Components(p, start)[k]).Some?
    ensures var t := Shrunk(p.str, p.slash);
      && 0 <= t[k] < t[k + 1]
      && Substr(Decoded(p.str).value, t[k], t[k + 1] - t[k] - 1) == Decoded(Components(p, start)[k]).value
  {
    hide Decoded, NoDouble, Skip, Split, Percents, Substr, Shrunk, Entries;
    AllRise(p, start);
    EntriesRise(p.str, start, start, k);
    var s, a := p.str, p.slash[k];
    var e := if k + 1 < Size(p) then p.slash[k + 1] - 1 else |s|;
    AroundComponent(p, start, k, e);
    ShrunkAround(p, start, k, e);
    var t := Shrunk(s, p.slash);
    SubstrMiddle(Decoded(s[..a]).value, Decoded(s[a..e]).value, Decoded(s[e..]).value, t[k], t[k + 1] - t[k] - 1);
  }

  /** Corrected index entries are as far apart as the decoded component is long. */
  lemma ShrunkAround(p: KsPath, start: nat, k: nat, e: nat)
    requires WellIndexed(p, start) && k < Size(p) && Decoded(p.str).Some?
    requires e == if k + 1 < Size(p) then p.slash[k + 1] - 1 else |p.str|
    requires forall j :: 0 <= j < |p.slash| - 1 ==> p.slash[0] <= p.slash[j] <= |p.str|
    requires p.slash[k] <= e <= |p.str| && Decoded(p.str[..p.slash[k]]).Some? && Decoded(p.str[p.slash[k]..e]).Some?
    ensures var t := Shrunk(p.str, p.slash);
      && t[k] == |Decoded(p.str[..p.slash[k]]).value|
      && if k + 1 < Size(p) then t[k + 1] - t[k] - 1 == |Decoded(p.str[p.slash[k]..e]).value|
         else t[k + 1] == SIZE_MAX && Decoded(p.str[e..]) == Some("") && t[k] + |Decoded(p.str[p.slash[k]..e]).value| < SIZE_MAX
  {
    hide Decoded, NoDouble, Skip, Split, Percents;
    var s, a := p.str, p.slash[k];
    AllRise(p, start);
    EntryMoves(p, start, k);
    PieceSize(s, a, e);
    if k + 1 < Size(p) {
      EntryMoves(p, start, k + 1);
      EntriesRise(s, start, start, k + 1);
      EntriesRise(s, start, start, k);
      PercentsAdd(s, start, a, e);
      PercentsAdd(s, start, e, e + 1);
      NoPercentAt(s, e);
    } else {
      assert s[e..] == "";
      DecodedEnd(s[e..]);
    }
  }

  /** The index of a well-formed path is right exactly if its first component does not start with
      a dot; that of a relative path never does. */
  lemma WellIndexedExactly(s: string)
    requires ValidPath(s) && |s| < SIZE_MAX
    ensures Plain(s) <==> WellIndexed(Parsed(s), Start(s).1)
    ensures !IsAbsolute(s) ==> Plain(s)
  {
    if Plain(s) {
      ParsedComponents(s);
    }
    if !IsAbsolute(s) {
      ClimbEnds(s, 0, 1);
    }
  }

  /** If it does, the first component found is another one, or the string is read past its end. */
  lemma FirstComponentLost(s: string)
    requires ValidPath(s) && !Plain(s) && |s| < SIZE_MAX && Scannable(s)
    ensures Parsed(s).slash[0] < Parsed(s).slash[1]
    ensures Component(Parsed(s), 0) != Split(s, Start(s).1, Start(s).1)[0]
  {
    WellIndexedExactly(s);
    var skip := Skip(s, 0);
    assert Index(s) == Entries(s, skip, skip);
    PieceIsComponent(s, skip, skip, 0);
    SplitStart(s, skip, skip);
    SplitStart(s, 1, 1);
  }

  /** The first piece of a split string begins like the string, unless it is empty. */
  lemma {:induction false} SplitStart(s: string, a: nat, i: nat)
    requires a <= i <= |s|
    ensures var c := Split(s, a, i)[0];
      s[a..i] <= c && (if c == "" then a == i && (a == |s| || s[a] == '/') else a < |s| && c[0] == s[a])
    decreases |s| - i
  {
    if i < |s| && s[i] != '/' {
      SplitStart(s, a, i + 1);
    }
  }

  /** Behind the slash of an absolute path the index skips dots, too: a first component loses
      them, and a slash behind them is looked for in vain. */
  lemma LeadingDots()
    ensures ValidPath("/.a") && Scannable("/.a") && Index("/.a")[0] == 2 && Split("/.a", 1, 1) == [".a"]
    ensures ValidPath("/./a") && !Scannable("/./a")
  {
    var s, t := "/.a", "/./a";
    assert Skip(s, 2) == 2 && Skip(s, 1) == 2;
    assert NoDouble(s, 3, false) && NoDouble(s, 2, false) && Slashes(s, 3) == 0 && Slashes(s, 2) == 0;
    assert Split(s, 1, 3) == [s[1..]] && s[1..] == ".a" && Split(s, 1, 2) == [".a"];
    assert Skip(t, 3) == 3 && Skip(t, 2) == 3 && Skip(t, 1) == 3;
    assert NoDouble(t, 4, false) && NoDouble(t, 3, true) && NoDouble(t, 2, false);
    assert Slashes(t, 4) == 0 && Slashes(t, 3) == 0 && Slashes(t, 2) == 1;
  }
}
