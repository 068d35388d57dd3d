/** Resolving a set of paths, each in the context of the one before it. */
module PathResolution {
  import opened Conversions
  import opened Paths
  import opened Wrappers

  datatype KsResult = OkResult | BadPath | BadName

  /** A bound for the length of the context in front of identifier `i`. */
  function Total(ids: seq<string>, i: nat): (n: nat)
    requires i <= |ids|
  {
    if i == 0 then 2 else Total(ids, i - 1) + |ids[i - 1]| + 2
  }

  lemma {:induction false} TotalGrows(ids: seq<string>, i: nat, j: nat)
    requires i <= j <= |ids|
    ensures Total(ids, i) <= Total(ids, j)
  {
    if i < j {
      TotalGrows(ids, i, j - 1);
    }
  }

  predicate FitId(id: string) {
    Plain(id) && (id == "" || id[|id| - 1] != '%')
  }

  /** What is asked of the identifiers: no first component starts with a dot, none ends in a
      percent sign, and all together are shorter than the largest size. */
  predicate Fit(ids: seq<string>) {
    (forall i :: 0 <= i < |ids| ==> FitId(ids[i])) && Total(ids, |ids|) < SIZE_MAX
  }

  predicate Sound(p: KsPath, most: nat) {
    && |p.str| <= most && (p.str == "" || p.str[|p.str| - 1] != '%')
    && (p.valid ==> WellIndexed(p, Skip(p.str, 0)) && (p.goUp == 0 || p == Parsed(p.str)))
  }

  lemma ParsedSound(id: string, most: nat)
    requires Plain(id) && |id| <= most < SIZE_MAX && (id == "" || id[|id| - 1] != '%')
    ensures Sound(Parsed(id), most)
  {
    if ValidPath(id) {
      ParsedComponents(id);
    }
  }

  lemma ResolvedSound(context: KsPath, rel: KsPath, most: nat)
    requires Sound(context, most) && context.valid && Sound(rel, |rel.str|) && rel.valid && most + |rel.str| < SIZE_MAX
    ensures rel.slash[0] <= rel.slash[rel.last + 1]
    ensures Sound(Resolved(context, rel), most + |rel.str| + 2)
  {
    hide Split, Entries, NoDouble, Starts, Decoded, Overruns;
    var start, relStart := Skip(context.str, 0), Skip(rel.str, 0);
    RestIs(rel, relStart);
    if 0 < rel.goUp <= Size(context) {
      ResolvedComponents(context, start, rel, relStart);
      var cut := ComposedIs(context, start, rel, relStart);
      StartsClean(context.str);
    }
  }

  lemma StartsClean(s: string)
    ensures forall k :: 0 <= k < Skip(s, 0) ==> s[k] == '.' || s[k] == '/'
  {
    SkippedDots(s, 0);
  }

  /** One step: the path object for an identifier in the context of another, and the result. */
  function Next(context: KsPath, id: string, most: nat): (r: (KsPath, KsResult))
    requires Sound(context, most) && FitId(id) && most + |id| + 2 < SIZE_MAX
    ensures Sound(r.0, most + |id| + 2)
  {
    var path := Parsed(id);
    ParsedSound(id, |id|);
    if !path.valid then (path, BadPath)
    else if context.valid then
      ResolvedSound(context, path, most);
      var p := Resolved(context, path);
      (p, if p.valid then OkResult else BadPath)
    else (path, if path.goUp == 0 then OkResult else BadPath)
  }

  /** The context in front of identifier `i`: the left fold of the step. */
  function Context(ids: seq<string>, i: nat): (p: KsPath)
    requires Fit(ids) && i <= |ids|
    ensures Sound(p, Total(ids, i))
  {
    if i == 0 then Invalid("//")
    else
      TotalGrows(ids, i, |ids|);
      Next(Context(ids, i - 1), ids[i - 1], Total(ids, i - 1)).0
  }

  function StepResult(ids: seq<string>, i: nat): (r: KsResult)
    requires Fit(ids) && i < |ids|
  {
    TotalGrows(ids, i + 1, |ids|);
    Next(Context(ids, i), ids[i], Total(ids, i)).1
  }

  /** The result for identifier `i` after decoding, too. */
  function FinalResult(ids: seq<string>, i: nat): (r: KsResult)
    requires Fit(ids) && i < |ids|
  {
    if StepResult(ids, i) == OkResult && Decoded(Context(ids, i + 1).str).None? then BadName else StepResult(ids, i)
  }

  /** A path that is not well-formed or cannot be resolved is a bad path, one that then cannot be
      decoded a bad name. */
  lemma ResultKinds(ids: seq<string>, i: nat)
    requires Fit(ids) && i < |ids|
    ensures var p := Context(ids, i + 1);
      && (FinalResult(ids, i) == OkResult <==> StepResult(ids, i) == OkResult && Decoded(p.str).Some?)
      && (FinalResult(ids, i) == BadName <==> StepResult(ids, i) == OkResult && Decoded(p.str).None?)
      && (FinalResult(ids, i) == BadPath <==> StepResult(ids, i) != OkResult)
      && (StepResult(ids, i) == OkResult ==> p.valid)
      && (!ValidPath(ids[i]) ==> FinalResult(ids, i) == BadPath)
  {
    TotalGrows(ids, i + 1, |ids|);
    hide ValidPath, Decoded;
  }

  lemma NoOverrun(s: string)
    requires s == "" || s[|s| - 1] != '%'
    ensures !Overruns(s)
  {
    OverrunsExactly(s);
  }

  /** `q` is the path `p` decoded in place. */
  predicate DecodedFrom(p: KsPath, q: KsPath) {
    && Decoded(p.str).Some? && |p.slash| >= 2
    && (forall k :: 0 <= k < |p.slash| - 1 ==> p.slash[0] <= p.slash[k] <= |p.str|)
    && q.str == Decoded(p.str).value && q.slash == Shrunk(p.str, p.slash)
    && q == p.(str := q.str, slash := q.slash)
  }

  method Step(context: KsPath, id: string, ghost most: nat) returns (path: KsPath, result: KsResult)
    requires Sound(context, most) && FitId(id) && most + |id| + 2 < SIZE_MAX
    ensures (path, result) == Next(context, id, most)
  {
    if ValidPath(id) {
      ParsedComponents(id);
    }
    ParsedSound(id, |id|);
    var parsed := FromString(id);
    path := parsed.value;
    if path.valid {
      if context.valid {
        path := Resolve(context, path, Skip(context.str, 0), Skip(id, 0));
        result := if path.valid then OkResult else BadPath;
      } else {
        result := if path.goUp == 0 then OkResult else BadPath;
      }
    } else {
      result := BadPath;
    }
  }

  method ResolveAll(ids: seq<string>, paths: array<KsPath>, res: array<KsResult>)
    requires Fit(ids) && |ids| == paths.Length == res.Length
    modifies paths, res
    ensures forall i :: 0 <= i < |ids| ==> paths[i] == Context(ids, i + 1) && res[i] == StepResult(ids, i)
  {
    hide Next, Sound;
    var context := Invalid("//");
    for idx := 0 to |ids|
      invariant context == Context(ids, idx)
      invariant forall i :: 0 <= i < idx ==> paths[i] == Context(ids, i + 1) && res[i] == StepResult(ids, i)
    {
      TotalGrows(ids, idx + 1, |ids|);
      var path, result := Step(context, ids[idx], Total(ids, idx));
      paths[idx] := path;
      res[idx] := result;
      context := path;
    }
  }

  method DecodeAll(ids: seq<string>, paths: array<KsPath>, res: array<KsResult>)
    requires Fit(ids) && |ids| == paths.Length == res.Length
    requires forall i :: 0 <= i < |ids| ==> paths[i] == Context(ids, i + 1) && res[i] == StepResult(ids, i)
    modifies paths, res
    ensures forall i :: 0 <= i < |ids| ==> res[i] == FinalResult(ids, i)
    ensures forall i :: 0 <= i < |ids| ==>
      if res[i] == OkResult then DecodedFrom(Context(ids, i + 1), paths[i]) else paths[i] == Context(ids, i + 1)
  {
    hide Next, Sound, Context, DecodedFrom, Fit, StepResult;
    for idx := 0 to |ids|
      invariant forall i :: 0 <= i < idx ==> res[i] == FinalResult(ids, i)
      invariant forall i :: 0 <= i < idx ==>
        if res[i] == OkResult then DecodedFrom(Context(ids, i + 1), paths[i]) else paths[i] == Context(ids, i + 1)
      invariant forall i :: idx <= i < |ids| ==> paths[i] == Context(ids, i + 1) && res[i] == StepResult(ids, i)
    {
      if res[idx] == OkResult {
        var ok, path := DecodeOne(paths[idx], Total(ids, idx + 1), ids, idx);
        paths[idx] := path;
        res[idx] := if ok then OkResult else BadName;
      }
    }
  }

  method DecodeOne(p: KsPath, ghost most: nat, ghost ids: seq<string>, ghost i: nat) returns (ok: bool, path: KsPath)
    requires Fit(ids) && i < |ids| && p == Context(ids, i + 1) && StepResult(ids, i) == OkResult
    ensures if ok then FinalResult(ids, i) == OkResult && DecodedFrom(p, path)
      else FinalResult(ids, i) == BadName && path == p
  {
    hide Decoded, Overruns;
    NoOverrun(p.str);
    var decoding;
    decoding, path := DecodePercents(p, Skip(p.str, 0));
    ok := decoding.Text?;
  }

  /** Resolves all identifiers, each path being the context of the next; then decodes those that
      could be resolved. */
  method ResolvePaths(ids: seq<string>, paths: array<KsPath>, res: array<KsResult>)
    requires Fit(ids) && |ids| == paths.Length == res.Length
    modifies paths, res
    ensures forall i :: 0 <= i < |ids| ==> res[i] == FinalResult(ids, i)
    ensures forall i :: 0 <= i < |ids| ==>
      if res[i] == OkResult then DecodedFrom(Context(ids, i + 1), paths[i]) else paths[i] == Context(ids, i + 1)
  {
    ResolveAll(ids, paths, res);
    DecodeAll(ids, paths, res);
  }

  /** The absolute components that an identifier should have: a relative one needs a context
      with absolute components to start from. */
  function Meaning(ids: seq<string>, i: nat): (m: Option<seq<string>>)
    requires i < |ids|
  {
    var id := ids[i];
    if !ValidPath(id) then None
    else if IsAbsolute(id) then Some(Split(id, 1, 1))
    else if i == 0 || Meaning(ids, i - 1).None? then None
    else
      var c, start := Meaning(ids, i - 1).value, Start(id);
      if start.2 <= |c| then Some(c[..|c| - start.2] + Split(id, start.1, start.1)) else None
  }

  /** A relative identifier meets a context that is valid although it is relative itself. */
  predicate Strays(ids: seq<string>, i: nat)
    requires Fit(ids) && i < |ids|
  {
    var context := Context(ids, i);
    && context.valid && context.goUp > 0
    && ValidPath(ids[i]) && !IsAbsolute(ids[i]) && Start(ids[i]).2 <= Size(context)
  }

  /** The path found for an identifier is the one it means, or there is none. */
  predicate Agrees(ids: seq<string>, i: nat)
    requires Fit(ids) && i < |ids|
  {
    var p := Context(ids, i + 1);
    match Meaning(ids, i)
    case None => StepResult(ids, i) != OkResult
    case Some(c) => StepResult(ids, i) == OkResult && IsAbsolute(p.str) && WellIndexed(p, 1) && Components(p, 1) == c
  }

  /** What a context stands for. */
  predicate Stands(p: KsPath, m: Option<seq<string>>) {
    match m
    case None => p.valid ==> p.goUp > 0
    case Some(c) => p.valid && p.goUp == 0 && WellIndexed(p, 1) && IsAbsolute(p.str) && Components(p, 1) == c
  }

  function Before(ids: seq<string>, i: nat): (m: Option<seq<string>>)
    requires i <= |ids|
  {
    if i == 0 then None else Meaning(ids, i - 1)
  }

  lemma AbsoluteStep(ids: seq<string>, i: nat)
    requires Fit(ids) && i < |ids| && Stands(Context(ids, i), Before(ids, i))
    requires !ValidPath(ids[i]) || IsAbsolute(ids[i])
    ensures Agrees(ids, i) && !Strays(ids, i) && Stands(Context(ids, i + 1), Meaning(ids, i))
  {
    TotalGrows(ids, i + 1, |ids|);
    if ValidPath(ids[i]) {
      ParsedComponents(ids[i]);
    }
  }

  lemma RelativeStep(ids: seq<string>, i: nat)
    requires Fit(ids) && i < |ids| && Stands(Context(ids, i), Before(ids, i))
    requires ValidPath(ids[i]) && !IsAbsolute(ids[i])
    ensures Agrees(ids, i) <==> !Strays(ids, i)
    ensures Agrees(ids, i) ==> Stands(Context(ids, i + 1), Meaning(ids, i))
  {
    hide Split, NoDouble, Skip, Entries, Index, ComposedString, Climb;
    var context, rel := Context(ids, i), Parsed(ids[i]);
    TotalGrows(ids, i + 1, |ids|);
    ParsedComponents(ids[i]);
    if context.valid && rel.goUp <= Size(context) {
      ResolvedComponents(context, Skip(context.str, 0), rel, Start(ids[i]).1);
    }
  }

  lemma StandsAtFirst(ids: seq<string>)
    requires Fit(ids)
    ensures Stands(Context(ids, 0), Before(ids, 0))
  {
  }

  /** If no identifier strays, each path is the one it means; the first that does gets a path,
      although it means none. */
  lemma {:induction false} AllAgree(ids: seq<string>, n: nat)
    requires Fit(ids) && n <= |ids|
    ensures (forall i :: 0 <= i < n ==> Agrees(ids, i)) <==> (forall i :: 0 <= i < n ==> !Strays(ids, i))
    ensures (forall i :: 0 <= i < n ==> Agrees(ids, i)) ==> Stands(Context(ids, n), Before(ids, n))
  {
    hide Agrees, Strays, Stands, Context, ValidPath, IsAbsolute, Meaning;
    if n == 0 {
      StandsAtFirst(ids);
    } else {
      AllAgree(ids, n - 1);
      if forall i :: 0 <= i < n - 1 ==> Agrees(ids, i) {
        if !ValidPath(ids[n - 1]) || IsAbsolute(ids[n - 1]) {
          AbsoluteStep(ids, n - 1);
        } else {
          RelativeStep(ids, n - 1);
        }
      }
    }
  }

  /** The components handed out in the end are those meant, each decoded. */
  lemma FinalComponents(ids: seq<string>, i: nat, q: KsPath, k: nat)
    requires Fit(ids) && i < |ids| && Agrees(ids, i) && Meaning(ids, i).Some? && k < |Meaning(ids, i).value|
    requires DecodedFrom(Context(ids, i + 1), q)
    ensures k + 1 < |q.slash| && q.first == 0 && q.slash[k] < q.slash[k + 1]
    ensures Decoded(Meaning(ids, i).value[k]) == Some(Component(q, k))
  {
    hide Split, NoDouble, Skip, Decoded, Meaning;
    var p := Context(ids, i + 1);
    TotalGrows(ids, i + 1, |ids|);
    DecodedComponents(p, 1, k);
  }

  /** Two relative identifiers in a row, without any context: the second one is accepted. */
  lemma StrayAccepted()
    ensures Fit(["a", "b"]) && Strays(["a", "b"], 1) && !Agrees(["a", "b"], 1)
  {
    var ids := ["a", "b"];
    assert Total(ids, 0) == 2 && Total(ids, 1) == 5 && Total(ids, 2) == 8;
    assert Start("a") == (true, 0, 1) && Start("b") == (true, 0, 1);
    assert NoDouble("a", 1, false) && NoDouble("b", 1, false);
    assert Context(ids, 0) == Invalid("//");
    assert Context(ids, 1) == Parsed("a");
    AllAgree(ids, 1);
    AllAgree(ids, 2);
  }
}
