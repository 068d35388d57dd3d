/** Wildcard masks: `?` stands for any character, `*` for any characters, `[...]` for one of a
    set, and a backslash takes the meaning from the next character. */
module Masks {

  predicate IsDigit(c: char) { '0' <= c <= '9' }
  predicate IsUpper(c: char) { 'A' <= c <= 'Z' }
  predicate IsLower(c: char) { 'a' <= c <= 'z' }

  /** What stands between the brackets of a set. */
  datatype Body = Malformed | Range(low: char, high: char, close: nat) | Listed(first: nat, close: nat)

  /** The first closing bracket at or after `i`, or the length of the mask. */
  function Closing(mask: string, i: nat): (j: nat)
    requires i <= |mask|
    ensures i <= j <= |mask| && (j < |mask| ==> mask[j] == ']')
    ensures forall x :: i <= x < j ==> mask[x] != ']'
    decreases |mask| - i
  {
    if i == |mask| || mask[i] == ']' then i else Closing(mask, i + 1)
  }

  predicate Ordered(low: char, high: char) {
    || (IsDigit(low) && IsDigit(high))
    || (IsUpper(low) && IsUpper(high))
    || (IsLower(low) && IsLower(high))
    || (IsUpper(low) && IsLower(high))
    || (IsLower(low) && IsUpper(high))
  }

  predicate Negated(mask: string, m: nat)
    requires m + 1 < |mask|
  {
    mask[m + 1] == '^'
  }

  /** The body of the set whose opening bracket is at `m`. A dash in second place makes it a
      range, unless fewer than two characters follow. */
  function SetBody(mask: string, m: nat): (b: Body)
    requires m < |mask|
    ensures b.Malformed? || (m < b.close < |mask| && mask[b.close] == ']')
    ensures !b.Malformed? ==> m + 2 < |mask|
  {
    if m + 2 >= |mask| then Malformed
    else
      var first := if Negated(mask, m) then m + 2 else m + 1;
      if first + 4 <= |mask| && mask[first + 1] == '-' then
        if Ordered(mask[first], mask[first + 2]) && mask[first + 3] == ']' then
          Range(mask[first], mask[first + 2], first + 3)
        else Malformed
      else
        var close := Closing(mask, first);
        if close == |mask| then Malformed else Listed(first, close)
  }

  /** A range from one case to the other runs through the end of the first alphabet. */
  predicate InRange(low: char, high: char, c: char) {
    if IsUpper(low) && IsLower(high) then (low <= c <= 'Z' || 'a' <= c <= high)
    else if IsLower(low) && IsUpper(high) then low <= c <= 'z' || 'A' <= c <= high
    else low <= c <= high
  }

  predicate InBody(mask: string, b: Body, c: char)
    requires b.Listed? ==> b.first <= b.close <= |mask|
  {
    match b
    case Malformed => false
    case Range(low, high, _) => InRange(low, high, c)
    case Listed(first, close) => c in mask[first..close]
  }

  method Scan(low: char, high: char, c: char) returns (found: bool)
    ensures found <==> low <= c <= high
  {
    var i := low as int;
    while i <= high as int
      invariant low as int <= i
      invariant low as int <= c as int ==> i <= c as int
    {
      if i == c as int {
        return true;
      }
      i := i + 1;
    }
    found := false;
  }

  method ScanRange(low: char, high: char, c: char) returns (found: bool)
    requires Ordered(low, high)
    ensures found <==> InRange(low, high, c)
  {
    if IsUpper(low) && IsLower(high) {
      found := Scan(low, 'Z', c);
      if !found {
        found := Scan('a', high, c);
      }
    } else if IsLower(low) && IsUpper(high) {
      found := Scan(low, 'z', c);
      if !found {
        found := Scan('A', high, c);
      }
    } else {
      found := Scan(low, high, c);
    }
  }

  /** Looks for a character up to the closing bracket, and then for the bracket. */
  method ScanList(mask: string, first: nat, c: char) returns (found: bool, close: nat)
    requires first <= |mask|
    ensures close == Closing(mask, first) && (found <==> c in mask[first..close])
  {
    var i := first;
    while i < |mask| && mask[i] != ']' && mask[i] != c
      invariant first <= i <= |mask| && Closing(mask, i) == Closing(mask, first)
      invariant c !in mask[first..i]
    {
      i := i + 1;
    }
    found := i < |mask| && mask[i] != ']';
    close := ScanClosing(mask, i);
    assert found ==> mask[first..close][i - first] == c;
  }

  method ScanClosing(mask: string, first: nat) returns (close: nat)
    requires first <= |mask|
    ensures close == Closing(mask, first)
  {
    close := first;
    while close < |mask| && mask[close] != ']'
      invariant first <= close <= |mask| && Closing(mask, close) == Closing(mask, first)
    {
      close := close + 1;
    }
  }

  /** Matches one character against the set at `m`: 1 with the positions behind both, 0 if it
      does not match, negative if the set is malformed. A negated set that matches reports
      success but leaves the positions where they are. */
  method Set(mask: string, name: string, n: nat, m: nat) returns (r: int, n': nat, m': nat)
    requires n < |name| && m < |mask|
    ensures var b := SetBody(mask, m);
      if b.Malformed? then r == -(m + 1) && n' == n && m' == m
      else if Negated(mask, m) then
        if InBody(mask, b, name[n]) then r == 0 else r == 1 && n' == n && m' == m
      else if InBody(mask, b, name[n]) then r == 1 && n' == n + 1 && m' == b.close + 1
      else r == 0
  {
    var l := |mask|;
    n', m' := n, m;
    if l <= m + 2 {
      return -(m + 1), n', m';
    }
    var negated := mask[m + 1] == '^';
    var first := if negated then m + 2 else m + 1;
    var found, close;
    if first + 4 <= l && mask[first + 1] == '-' {
      if !(Ordered(mask[first], mask[first + 2]) && mask[first + 3] == ']') {
        return -(m + 1), n', m';
      }
      found := ScanRange(mask[first], mask[first + 2], name[n]);
      close := first + 3;
    } else {
      found, close := ScanList(mask, first, name[n]);
      if close == l {
        return -(m + 1), n', m';
      }
    }
    if found {
      n', m' := n + 1, close + 1;
    }
    if negated {
      r := if found then 0 else 1;
    } else {
      r := if found then 1 else 0;
    }
  }

  /** Masks for which the matcher is right, from position `m` on. Sets are positive and
      well-formed. Behind a star (`star`), no set ends in a backslash and no backslash is
      escaped; and no opening bracket is escaped right behind a run with a star in it (`run`). */
  ghost predicate WellFormed(mask: string, m: nat, run: bool, star: bool)
    requires m <= |mask|
    decreases |mask| - m
  {
    m == |mask| ||
    match mask[m]
    case '*' => WellFormed(mask, m + 1, true, true)
    case '?' => WellFormed(mask, m + 1, run, star)
    case '[' => GoodSet(mask, m, star) && WellFormed(mask, SetBody(mask, m).close + 1, false, star)
    case '\\' =>
      && m + 1 < |mask| && !(star && mask[m + 1] == '\\') && !(run && mask[m + 1] == '[')
      && WellFormed(mask, m + 2, false, star)
    case _ => WellFormed(mask, m + 1, false, star)
  }

  ghost predicate GoodSet(mask: string, m: nat, star: bool)
    requires m < |mask|
  {
    var b := SetBody(mask, m);
    !b.Malformed? && !Negated(mask, m) && !(star && mask[b.close - 1] == '\\')
  }

  /** The mask from `m` on matches the name from `n` on. */
  ghost predicate Matches(mask: string, m: nat, name: string, n: nat)
    requires m <= |mask| && n <= |name|
    decreases |mask| - m
  {
    if m == |mask| then n == |name|
    else if mask[m] == '*' then
      var behind := m + 1;
      exists j: nat :: n <= j <= |name| && Matches(mask, behind, name, j)
    else
      && n < |name|
      && match mask[m]
         case '?' => Matches(mask, m + 1, name, n + 1)
         case '[' =>
           var b := SetBody(mask, m);
           && !b.Malformed? && InBody(mask, b, name[n]) != Negated(mask, m)
           && Matches(mask, b.close + 1, name, n + 1)
         case '\\' => m + 1 < |mask| && mask[m + 1] == name[n] && Matches(mask, m + 2, name, n + 1)
         case c => c == name[n] && Matches(mask, m + 1, name, n + 1)
  }

  /** Where a letter stands when one alphabet, the one that has the case of `low`, comes before the
      other. */
  function Rank(low: char, c: char): (r: int) {
    if IsUpper(low) then if IsUpper(c) then c as int - 65 else if IsLower(c) then c as int - 97 + 26 else -1
    else if IsLower(c) then c as int - 97 else if IsUpper(c) then c as int - 65 + 26 else -1
  }

  /** A range holds the digits or letters from its first to its last character; from one case to the
      other it runs through the end of the first alphabet. */
  lemma InRangeExactly(low: char, high: char, c: char)
    requires Ordered(low, high)
    ensures InRange(low, high, c) <==>
      if IsDigit(low) then low <= c <= high
      else 0 <= Rank(low, low) <= Rank(low, c) <= Rank(low, high)
  {
  }

  /** Without special characters a mask matches itself only. */
  predicate Literal(s: string) {
    forall c :: c in s ==> c !in "*?[\\"
  }

  lemma {:induction false} LiteralMatches(mask: string, m: nat, name: string, n: nat)
    requires m <= |mask| && n <= |name| && Literal(mask[m..])
    ensures Matches(mask, m, name, n) <==> mask[m..] == name[n..]
    decreases |mask| - m
  {
    if m < |mask| {
      PlainHere(mask, m);
      if n < |name| {
        LiteralMatches(mask, m + 1, name, n + 1);
        assert mask[m..] == [mask[m]] + mask[m + 1..] && name[n..] == [name[n]] + name[n + 1..];
        assert mask[m..][0] == mask[m] && name[n..][0] == name[n];
        assert mask[m..][1..] == mask[m + 1..] && name[n..][1..] == name[n + 1..];
      }
    }
  }

  lemma PlainHere(mask: string, m: nat)
    requires m < |mask| && Literal(mask[m..])
    ensures mask[m] !in {'*', '?', '[', '\\'} && Literal(mask[m + 1..])
  {
    var special := "*?[\\";
    assert special[0] == '*' && special[1] == '?' && special[2] == '[' && special[3] == '\\';
    assert mask[m..][0] == mask[m] && mask[m] in mask[m..];
    assert forall c :: c in mask[m + 1..] ==> c in mask[m..];
  }

  /** What comes in front of the rest of a mask: itself, if nothing special; any one character; one
      of a set; the escaped character; or any characters. */
  lemma MatchesFirst(mask: string, m: nat, name: string, n: nat)
    requires m < |mask| && n <= |name|
    ensures mask[m] == '?' ==> (Matches(mask, m, name, n) <==> n < |name| && Matches(mask, m + 1, name, n + 1))
    ensures mask[m] == '*' ==> (Matches(mask, m, name, n) <==> MatchesFrom(mask, m + 1, name, n))
    ensures mask[m] == '\\' && m + 1 < |mask| ==>
      (Matches(mask, m, name, n) <==> n < |name| && name[n] == mask[m + 1] && Matches(mask, m + 2, name, n + 1))
    ensures m + 1 == |mask| && mask[m] == '\\' ==> !Matches(mask, m, name, n)
  {
  }

  lemma StarEnd(mask: string, m: nat, end: string, name: string, n: nat)
    requires m < |mask| && mask[m] == '*' && mask[m + 1..] == end && Literal(end) && n <= |name|
    ensures Matches(mask, m, name, n) <==> n + |end| <= |name| && name[|name| - |end|..] == end
  {
    MatchesFirst(mask, m, name, n);
    hide Matches;
    forall j: nat | n <= j <= |name| ensures Matches(mask, m + 1, name, j) <==> end == name[j..] {
      LiteralMatches(mask, m + 1, name, j);
    }
    if n + |end| <= |name| && name[|name| - |end|..] == end {
      assert Matches(mask, m + 1, name, |name| - |end|);
    }
    if MatchesFrom(mask, m + 1, name, n) {
      var j: nat :| n <= j <= |name| && Matches(mask, m + 1, name, j);
      assert |name[j..]| == |name| - j && j == |name| - |end|;
    }
  }

  /** A literal start, a star and a literal end match the names that start and end so, without an
      overlap. */
  lemma StarBetween(start: string, end: string, name: string)
    requires Literal(start) && Literal(end)
    ensures Matches(start + "*" + end, 0, name, 0) <==>
      |start| + |end| <= |name| && start <= name && name[|name| - |end|..] == end
  {
    hide Matches, Literal;
    var mask := start + "*" + end;
    StarCut(start, end);
    BehindStart(start, "*" + end, name, 0);
    if start <= name {
      StarEnd(mask, |start|, end, name, |start|);
    }
  }

  lemma StarCut(start: string, end: string)
    ensures var mask := start + "*" + end;
      mask == start + ("*" + end) && mask[|start|] == '*' && mask[|start| + 1..] == end
  {
  }

  lemma {:induction false} BehindStart(start: string, rest: string, name: string, k: nat)
    requires Literal(start) && k <= |start| && k <= |name| && start[..k] == name[..k]
    ensures Matches(start + rest, k, name, k) <==> start <= name && Matches(start + rest, |start|, name, |start|)
    decreases |start| - k
  {
    if k < |start| {
      var mask := start + rest;
      assert mask[k] == start[k] && start[k] in start;
      PlainHere(start, 0);
      LiteralChar(start, k);
      if k < |name| && name[k] == start[k] {
        assert start[..k + 1] == start[..k] + [start[k]] && name[..k + 1] == name[..k] + [name[k]];
        BehindStart(start, rest, name, k + 1);
      }
    } else {
      assert start[..k] == start && name[..k] <= name;
    }
  }

  lemma LiteralChar(s: string, k: nat)
    requires k < |s| && Literal(s)
    ensures s[k] !in {'*', '?', '[', '\\'}
  {
    var special := "*?[\\";
    assert special[0] == '*' && special[1] == '?' && special[2] == '[' && special[3] == '\\';
    assert s[k] in s;
  }

  /** A set of listed characters matches one of them; with a caret in front, any other one. */
  lemma ListMatches(list: string, caret: bool, name: string)
    requires list != "" && ']' !in list && (!caret ==> list[0] != '^') && (|list| >= 3 ==> list[1] != '-')
    ensures Matches("[" + (if caret then "^" else "") + list + "]", 0, name, 0) <==>
      |name| == 1 && (name[0] in list <==> !caret)
  {
    if name == "" {
      return;
    }
    var mask := "[" + (if caret then "^" else "") + list + "]";
    var first := if caret then 2 else 1;
    ListShape(list, caret);
    hide SetBody;
    assert InBody(mask, SetBody(mask, 0), name[0]) <==> name[0] in list by {
      assert mask[first..first + |list|] == list;
    }
    assert Matches(mask, |mask|, name, 1) <==> |name| == 1;
  }

  lemma ListShape(list: string, caret: bool)
    requires list != "" && ']' !in list && (!caret ==> list[0] != '^') && (|list| >= 3 ==> list[1] != '-')
    ensures var mask, first := "[" + (if caret then "^" else "") + list + "]", if caret then 2 else 1;
      && mask[0] == '[' && |mask| == first + |list| + 1 && mask[first..first + |list|] == list
      && SetBody(mask, 0) == Listed(first, first + |list|) && (Negated(mask, 0) <==> caret)
  {
    var mask, first := "[" + (if caret then "^" else "") + list + "]", if caret then 2 else 1;
    assert mask == (if caret then "[^" else "[") + list + "]";
    assert forall i :: 0 <= i < |list| ==> mask[first + i] == list[i];
    assert forall x :: first <= x < first + |list| ==> mask[x] == list[x - first] && list[x - first] in list;
    ClosingIs(mask, first, first + |list|);
    hide Closing;
  }

  lemma {:induction false} ClosingIs(mask: string, i: nat, close: nat)
    requires i <= close < |mask| && mask[close] == ']' && forall x :: i <= x < close ==> mask[x] != ']'
    ensures Closing(mask, i) == close
    decreases close - i
  {
    if i < close {
      ClosingIs(mask, i + 1, close);
    }
  }

  /** And so with a range of two characters of the same kind, or letters of either case. */
  lemma RangeMatches(low: char, high: char, caret: bool, name: string)
    requires Ordered(low, high)
    ensures Matches("[" + (if caret then "^" else "") + [low, '-', high] + "]", 0, name, 0) <==>
      |name| == 1 && (InRange(low, high, name[0]) <==> !caret)
  {
    var head := if caret then "[^" else "[";
    var mask := "[" + (if caret then "^" else "") + [low, '-', high] + "]";
    assert mask == head + [low, '-', high, ']'];
    var first := |head|;
    assert mask[first] == low && mask[first + 1] == '-' && mask[first + 2] == high && mask[first + 3] == ']';
    assert SetBody(mask, 0) == Range(low, high, first + 3);
    if name != "" {
      assert Matches(mask, |mask|, name, 1) <==> |name| == 1;
    }
  }

  /** The mask from `m` on matches some end of the name that starts at `n` or later. */
  ghost predicate MatchesFrom(mask: string, m: nat, name: string, n: nat)
    requires m <= |mask| && n <= |name|
  {
    exists j: nat :: n <= j <= |name| && Matches(mask, m, name, j)
  }

  /** The number of characters that the mask needs at least. */
  ghost function Needed(mask: string, m: nat): (n: nat)
    requires m <= |mask|
    decreases |mask| - m
  {
    if m == |mask| then 0
    else
      match mask[m]
      case '*' => Needed(mask, m + 1)
      case '[' => if SetBody(mask, m).Malformed? then 0 else 1 + Needed(mask, SetBody(mask, m).close + 1)
      case '\\' => if m + 1 == |mask| then 0 else 1 + Needed(mask, m + 2)
      case _ => 1 + Needed(mask, m + 1)
  }

  /** A mask that is well-formed behind a star is so anywhere. */
  lemma {:induction false} RunsMatter(mask: string, m: nat, star: bool)
    requires m <= |mask|
    ensures WellFormed(mask, m, true, star) ==> WellFormed(mask, m, false, star)
    decreases |mask| - m
  {
    if m < |mask| && mask[m] == '?' {
      RunsMatter(mask, m + 1, star);
    }
  }

  lemma {:induction false} NeededAtMost(mask: string, m: nat, name: string, n: nat)
    requires m <= |mask| && n <= |name| && Matches(mask, m, name, n)
    ensures Needed(mask, m) <= |name| - n
    decreases |mask| - m
  {
    if m < |mask| {
      match mask[m]
      case '*' =>
        var j: nat :| n <= j <= |name| && Matches(mask, m + 1, name, j);
        NeededAtMost(mask, m + 1, name, j);
      case '[' => NeededAtMost(mask, SetBody(mask, m).close + 1, name, n + 1);
      case '\\' => NeededAtMost(mask, m + 2, name, n + 1);
      case _ => NeededAtMost(mask, m + 1, name, n + 1);
    }
  }

  /** The matcher's own count: closing brackets, and characters outside brackets other than
      backslashes and unescaped stars. */
  function Count(mask: string, i: nat, inSet: bool): (n: nat)
    requires 0 < i <= |mask|
    decreases |mask| - i
  {
    if i == |mask| then 0
    else if mask[i] == '[' && mask[i - 1] != '\\' then Count(mask, i + 1, true)
    else if mask[i] == ']' && mask[i - 1] != '\\' then 1 + Count(mask, i + 1, false)
    else (if !inSet && mask[i] != '\\' && (mask[i] != '*' || mask[i - 1] == '\\') then 1 else 0) + Count(mask, i + 1, inSet)
  }

  /** Inside a set nothing counts up to the bracket that closes it. */
  lemma {:induction false} CountSet(mask: string, i: nat, close: nat)
    requires 0 < i <= close < |mask| && mask[close] == ']' && mask[close - 1] != '\\'
    requires forall x :: i <= x < close ==> mask[x] != ']'
    ensures Count(mask, i, true) == 1 + Count(mask, close + 1, false)
    decreases close - i
  {
    if i < close {
      CountSet(mask, i + 1, close);
    }
  }

  lemma BodyCloses(mask: string, m: nat)
    requires m < |mask| && GoodSet(mask, m, true)
    ensures var close := SetBody(mask, m).close; forall x :: m < x < close ==> mask[x] != ']'
  {
  }

  /** For a well-formed mask the matcher's count is the number of characters needed. */
  lemma {:induction false} CountNeeded(mask: string, m: nat)
    requires 0 < m <= |mask| && mask[m - 1] != '\\' && WellFormed(mask, m, false, true)
    ensures Count(mask, m, false) == Needed(mask, m)
    decreases |mask| - m
  {
    if m < |mask| {
      RunsMatter(mask, m + 1, true);
      match mask[m]
      case '[' =>
        var close := SetBody(mask, m).close;
        BodyCloses(mask, m);
        CountSet(mask, m + 1, close);
        CountNeeded(mask, close + 1);
      case '\\' => CountNeeded(mask, m + 2);
      case _ => CountNeeded(mask, m + 1);
    }
  }

  /** Computes the count from position `from` on. */
  method LengthOfRest(mask: string, from: nat) returns (rest: nat)
    requires 0 < from <= |mask|
    ensures rest == Count(mask, from, false)
  {
    rest := 0;
    var inSet := false;
    var i := from;
    while i < |mask|
      invariant from <= i <= |mask|
      invariant rest + Count(mask, i, inSet) == Count(mask, from, false)
    {
      if mask[i] == '[' && mask[i - 1] != '\\' {
        inSet := true;
      } else if mask[i] == ']' && mask[i - 1] != '\\' {
        inSet := false;
        rest := rest + 1;
      } else if !inSet && mask[i] != '\\' && (mask[i] != '*' || mask[i - 1] == '\\') {
        rest := rest + 1;
      }
      i := i + 1;
    }
  }

  /** A token that needs a character does not match the end of the name. */
  lemma NothingLeft(mask: string, m: nat, name: string)
    requires m < |mask| && mask[m] != '*'
    ensures !Matches(mask, m, name, |name|)
  {
  }

  lemma StarMatches(mask: string, m: nat, name: string, n: nat)
    requires m < |mask| && n <= |name| && mask[m] == '*'
    ensures Matches(mask, m, name, n) <==> MatchesFrom(mask, m + 1, name, n)
  {
  }

  lemma StarStep(mask: string, m: nat, name: string, n: nat)
    requires m < |mask| && n <= |name|
    ensures mask[m] == '*' ==> (MatchesFrom(mask, m, name, n) <==> MatchesFrom(mask, m + 1, name, n))
    ensures mask[m] == '?' && n < |name| ==> (MatchesFrom(mask, m, name, n) <==> MatchesFrom(mask, m + 1, name, n + 1))
    ensures mask[m] == '?' && n == |name| ==> !MatchesFrom(mask, m, name, n)
  {
    if mask[m] == '*' {
      if MatchesFrom(mask, m, name, n) {
        var j: nat :| n <= j <= |name| && Matches(mask, m, name, j);
        StarMatches(mask, m, name, j);
      }
      if MatchesFrom(mask, m + 1, name, n) {
        StarMatches(mask, m, name, n);
        assert Matches(mask, m, name, n);
      }
    } else if mask[m] == '?' {
      if MatchesFrom(mask, m, name, n) {
        var j: nat :| n <= j <= |name| && Matches(mask, m, name, j);
        assert Matches(mask, m + 1, name, j + 1);
      }
      if n < |name| && MatchesFrom(mask, m + 1, name, n + 1) {
        var j: nat :| n + 1 <= j <= |name| && Matches(mask, m + 1, name, j);
        assert Matches(mask, m, name, j - 1);
      }
    }
  }

  lemma NotTooLate(mask: string, m: nat, name: string)
    requires m <= |mask|
    ensures forall j: nat :: j <= |name| && |name| - Needed(mask, m) < j ==> !Matches(mask, m, name, j)
  {
    forall j: nat | j <= |name| && |name| - Needed(mask, m) < j ensures !Matches(mask, m, name, j) {
      if Matches(mask, m, name, j) {
        NeededAtMost(mask, m, name, j);
      }
    }
  }

  /** What the matcher answers, if it ever does: 1 for a match, 0 for none, a negative number
      for a malformed mask. */
  datatype Verdict = Answer(r: int) | Forever

  /** A mask ends with a null character. */
  function At(mask: string, i: nat): (c: char) {
    if i < |mask| then mask[i] else '\0'
  }

  /** What the main loop comes to from positions `n` and `m` on. If a set reports success but
      moves neither position, the loop never ends. */
  ghost function Loop(mask: string, name: string, n: nat, m: nat): (v: Verdict)
    requires n <= |name| && m <= |mask| && '\0' !in name
    decreases |mask| - m, 1, 0
  {
    if n < |name| && m < |mask| then
      match mask[m]
      case '[' =>
        var b := SetBody(mask, m);
        if b.Malformed? then Forever
        else if InBody(mask, b, name[n]) == Negated(mask, m) then Answer(0)
        else if Negated(mask, m) then Forever
        else Loop(mask, name, n + 1, b.close + 1)
      case '*' => Star(mask, name, n, m)
      case '?' => Loop(mask, name, n + 1, m + 1)
      case '\\' => if At(mask, m + 1) == name[n] then Loop(mask, name, n + 1, m + 2) else Answer(0)
      case c => if c == name[n] then Loop(mask, name, n + 1, m + 1) else Answer(0)
    else if n == |name| && m == |mask| then Answer(1)
    else if m < |mask| && mask[m] == '*' then Star(mask, name, n, m)
    else Answer(0)
  }

  /** What the search comes to for what follows the star, or the run behind it, at `m`. */
  ghost function Star(mask: string, name: string, n: nat, m: nat): (v: Verdict)
    requires n <= |name| && m < |mask| && '\0' !in name
    decreases |mask| - m, 0, 0
  {
    if At(mask, m + 1) == '*' then Star(mask, name, n, m + 1)
    else if At(mask, m + 1) == '?' then if n < |name| then Star(mask, name, n + 1, m + 1) else Answer(0)
    else if m + 1 == |mask| then Answer(1)
    else if n == |name| then Answer(0)
    else
      var rest := Count(mask, m + 1, false);
      if rest == 0 then Answer(-(m + 1))
      else Search(mask, name, n, |name| - rest, if mask[m + 1] == '\\' then m + 2 else m + 1)
  }

  /** What the search from right to left comes to, from position `i` of the name on, for a token
      at `h`. */
  ghost function Search(mask: string, name: string, n: nat, i: int, h: nat): (v: Verdict)
    requires i < |name| && n <= |name| && h <= |mask| && '\0' !in name
    decreases |mask| - h, 2, i - n
  {
    if i < n then Answer(0)
    else
      var v := Passed(mask, name, i, h);
      if v != Answer(0) then v else Search(mask, name, n, i - 1, h)
  }

  /** What one candidate of the search comes to. */
  ghost function Passed(mask: string, name: string, i: nat, h: nat): (v: Verdict)
    requires i < |name| && h <= |mask| && '\0' !in name
    decreases |mask| - h, 1, 1
  {
    if At(mask, h) != '[' then
      if At(mask, h) == name[i] then Loop(mask, name, i + 1, h + 1) else Answer(0)
    else
      var b := SetBody(mask, h);
      if b.Malformed? then Answer(-(h + 1))
      else if InBody(mask, b, name[i]) == Negated(mask, h) then Answer(0)
      else if Negated(mask, h) then Forever
      else Loop(mask, name, i + 1, b.close + 1)
  }

  function Decision(b: bool): (v: Verdict) {
    Answer(if b then 1 else 0)
  }

  /** For a well-formed mask the matcher's verdict is right: it ends, with 1 exactly if the mask
      matches and with 0 if not. */
  lemma {:induction false} LoopDecides(mask: string, name: string, n: nat, m: nat, star: bool)
    requires n <= |name| && m <= |mask| && '\0' !in name && WellFormed(mask, m, false, star)
    ensures Loop(mask, name, n, m) == Decision(Matches(mask, m, name, n))
    decreases |mask| - m, 1, 0
  {
    if m < |mask| {
      if mask[m] == '*' {
        StarDecides(mask, name, n, m);
        StarMatches(mask, m, name, n);
      } else if n < |name| {
        match mask[m]
        case '[' =>
          if InBody(mask, SetBody(mask, m), name[n]) {
            LoopDecides(mask, name, n + 1, SetBody(mask, m).close + 1, star);
          }
        case '\\' => LoopDecides(mask, name, n + 1, m + 2, star);
        case _ => LoopDecides(mask, name, n + 1, m + 1, star);
      }
    }
  }

  lemma {:induction false} StarDecides(mask: string, name: string, n: nat, m: nat)
    requires n <= |name| && m < |mask| && '\0' !in name && mask[m] != '\\' && WellFormed(mask, m + 1, true, true)
    ensures Star(mask, name, n, m) == Decision(MatchesFrom(mask, m + 1, name, n))
    decreases |mask| - m, 0, 0
  {
    hide SetBody, InBody;
    if m + 1 == |mask| {
      assert Matches(mask, m + 1, name, |name|);
    } else if mask[m + 1] == '*' || mask[m + 1] == '?' {
      StarStep(mask, m + 1, name, n);
      if mask[m + 1] == '*' || n < |name| {
        StarDecides(mask, name, if mask[m + 1] == '*' then n else n + 1, m + 1);
      }
    } else if n == |name| {
      NothingLeft(mask, m + 1, name);
    } else {
      RunsMatter(mask, m + 1, true);
      CountNeeded(mask, m + 1);
      NotTooLate(mask, m + 1, name);
      SearchDecides(mask, name, n, |name| - Needed(mask, m + 1), m + 1);
    }
  }

  lemma {:induction false} SearchDecides(mask: string, name: string, n: nat, i: int, start: nat)
    requires i < |name| && n <= |name| && start < |mask| && '\0' !in name && mask[start] !in "*?"
    requires WellFormed(mask, start, true, true)
    requires forall j: nat :: n <= j <= |name| && i < j ==> !Matches(mask, start, name, j)
    ensures Search(mask, name, n, i, if mask[start] == '\\' then start + 1 else start)
      == Decision(MatchesFrom(mask, start, name, n))
    decreases |mask| - start, 2, i - n
  {
    if i >= n {
      if mask[start] == '[' {
        if InBody(mask, SetBody(mask, start), name[i]) {
          LoopDecides(mask, name, i + 1, SetBody(mask, start).close + 1, true);
        }
      } else if mask[start] == '\\' {
        LoopDecides(mask, name, i + 1, start + 2, true);
      } else {
        LoopDecides(mask, name, i + 1, start + 1, true);
      }
      if !Matches(mask, start, name, i) {
        SearchDecides(mask, name, n, i - 1, start);
      }
    }
  }

  /** The matcher's main loop. A turn that moves neither position repeats itself forever. */
  method MLoop(mask: string, name: string, n0: nat, m0: nat) returns (v: Verdict)
    requires n0 <= |name| && m0 <= |mask| && '\0' !in name
    ensures v == Loop(mask, name, n0, m0)
    decreases |mask| - m0, 1, 0
  {
    var n: nat, m: nat := n0, m0;
    while n < |name| && m < |mask|
      invariant m0 <= m <= |mask| && n <= |name|
      invariant Loop(mask, name, n, m) == Loop(mask, name, n0, m0)
      decreases |mask| - m
    {
      if mask[m] == '[' {
        var r, n', m' := Set(mask, name, n, m);
        if r == 0 {
          return Answer(r);
        }
        if n' == n && m' == m {
          return Forever;
        }
        n, m := n', m';
      } else if mask[m] == '*' {
        v := Joker(mask, name, n, m);
        return;
      } else if mask[m] == '?' {
        m, n := m + 1, n + 1;
      } else {
        var c := m;
        if mask[m] == '\\' {
          c := m + 1;
        }
        if c >= |mask| || mask[c] != name[n] {
          return Answer(0);
        }
        m, n := c + 1, n + 1;
      }
    }
    if n == |name| && m == |mask| {
      return Answer(1);
    }
    if m < |mask| && mask[m] == '*' {
      v := Joker(mask, name, n, m);
      return;
    }
    v := Answer(0);
  }

  /** Matches from the star at `m0` on: what follows it first as far right as the length of the
      rest allows, then further and further left. */
  method Joker(mask: string, name: string, n0: nat, m0: nat) returns (v: Verdict)
    requires n0 <= |name| && m0 < |mask| && '\0' !in name
    ensures v == Star(mask, name, n0, m0)
    decreases |mask| - m0, 0, 0
  {
    var n: nat, m: nat := n0, m0;
    while m + 1 < |mask| && (mask[m + 1] == '?' || mask[m + 1] == '*')
      invariant m0 <= m < |mask| && n <= |name|
      invariant Star(mask, name, n, m) == Star(mask, name, n0, m0)
    {
      if mask[m + 1] == '?' {
        if n < |name| {
          n := n + 1;
          m := m + 1;
        } else {
          return Answer(0);
        }
      } else {
        m := m + 1;
      }
    }
    if n == |name| && m + 1 != |mask| {
      return Answer(0);
    }
    if m + 1 >= |mask| {
      return Answer(1);
    }
    var rest := LengthOfRest(mask, m + 1);
    if rest == 0 {
      return Answer(-(m + 1));
    }
    if mask[m + 1] == '\\' {
      m := m + 1;
    }
    v := SearchBack(mask, name, n, |name| - rest, m + 1);
  }

  /** Tries the token at `h` at every position of the name from right to left. */
  method SearchBack(mask: string, name: string, n: nat, from: int, h: nat) returns (v: Verdict)
    requires from < |name| && n <= |name| && h <= |mask| && '\0' !in name
    ensures v == Search(mask, name, n, from, h)
    decreases |mask| - h, 2, 0
  {
    hide InBody;
    var i := from;
    while i >= n
      invariant i <= from
      invariant Search(mask, name, n, i, h) == Search(mask, name, n, from, h)
    {
      if h == |mask| || mask[h] != '[' {
        if h < |mask| && mask[h] == name[i] {
          v := MLoop(mask, name, i + 1, h + 1);
          if v != Answer(0) {
            return;
          }
        }
      } else {
        var r, h1, h2 := Set(mask, name, i, h);
        if r == 1 {
          if h2 == h {
            return Forever;
          }
          v := MLoop(mask, name, h1, h2);
          if v != Answer(0) {
            return;
          }
        } else if r < 0 {
          return Answer(r);
        }
      }
      i := i - 1;
    }
    v := Answer(0);
  }

  /** Matches a name against a mask. */
  method MatchesMask(mask: string, name: string) returns (v: Verdict)
    requires '\0' !in name
    ensures v == Loop(mask, name, 0, 0)
    ensures WellFormed(mask, 0, false, false) ==> v == Decision(Matches(mask, 0, name, 0))
  {
    v := MLoop(mask, name, 0, 0);
    if WellFormed(mask, 0, false, false) {
      LoopDecides(mask, name, 0, 0, false);
    }
  }

  /** All sets of the mask are positive and well-formed. */
  ghost predicate PlainSets(mask: string, m: nat)
    requires m <= |mask|
    decreases |mask| - m
  {
    if m == |mask| then true
    else if mask[m] != '[' then PlainSets(mask, m + 1)
    else !SetBody(mask, m).Malformed? && !Negated(mask, m) && PlainSets(mask, SetBody(mask, m).close + 1)
  }

  /** Without escapes nothing else is asked for. */
  lemma {:induction false} PlainWellFormed(mask: string, m: nat, run: bool, star: bool)
    requires m <= |mask| && '\\' !in mask && PlainSets(mask, m)
    ensures WellFormed(mask, m, run, star)
    decreases |mask| - m
  {
    if m < |mask| {
      match mask[m]
      case '*' => PlainWellFormed(mask, m + 1, true, true);
      case '?' => PlainWellFormed(mask, m + 1, run, star);
      case '[' => PlainWellFormed(mask, SetBody(mask, m).close + 1, false, star);
      case _ => PlainWellFormed(mask, m + 1, false, star);
    }
  }

  /** A set that is malformed, or negated and successful, moves neither position. */
  ghost predicate Stalls(mask: string, m: nat, c: char)
    requires m < |mask|
  {
    var b := SetBody(mask, m);
    b.Malformed? || (Negated(mask, m) && !InBody(mask, b, c))
  }

  /** A mask without stars, whatever its sets and escapes, is never answered wrongly; but a set
      that stalls keeps the matcher from answering. */
  lemma {:induction false} StarFree(mask: string, name: string, n: nat, m: nat)
    requires n <= |name| && m <= |mask| && '\0' !in name && '*' !in mask
    ensures Loop(mask, name, n, m) == Decision(Matches(mask, m, name, n)) || Loop(mask, name, n, m) == Forever
    ensures n < |name| && m < |mask| && mask[m] == '[' && Stalls(mask, m, name[n]) ==> Loop(mask, name, n, m) == Forever
    decreases |mask| - m
  {
    hide SetBody, InBody;
    if n < |name| && m < |mask| {
      match mask[m]
      case '[' =>
        var b := SetBody(mask, m);
        if !b.Malformed? {
          StarFree(mask, name, n + 1, b.close + 1);
        }
      case '\\' =>
        if m + 1 < |mask| {
          StarFree(mask, name, n + 1, m + 2);
        }
      case _ => StarFree(mask, name, n + 1, m + 1);
    }
  }

  /** No character is in the set. */
  predicate EmptyBody(b: Body) {
    match b
    case Malformed => false
    case Range(low, high, _) => !InRange(low, high, low)
    case Listed(first, close) => first == close
  }

  /** From `m` on, no set is malformed or negated, unless it comes behind an empty one, which
      nothing can pass. */
  predicate Safe(mask: string, m: nat)
    requires m <= |mask|
    decreases |mask| - m
  {
    m == |mask| ||
    match mask[m]
    case '[' =>
      var b := SetBody(mask, m);
      !b.Malformed? && !Negated(mask, m) && (EmptyBody(b) || Safe(mask, b.close + 1))
    case '\\' => m + 1 == |mask| || Safe(mask, m + 2)
    case _ => Safe(mask, m + 1)
  }

  lemma {:induction false} SafeDecides(mask: string, name: string, n: nat, m: nat)
    requires n <= |name| && m <= |mask| && '\0' !in name && '*' !in mask && Safe(mask, m)
    ensures Loop(mask, name, n, m) == Decision(Matches(mask, m, name, n))
    decreases |mask| - m
  {
    if n < |name| && m < |mask| {
      match mask[m]
      case '[' =>
        var b := SetBody(mask, m);
        if InBody(mask, b, name[n]) {
          SafeDecides(mask, name, n + 1, b.close + 1);
        }
      case '\\' =>
        if m + 1 < |mask| {
          SafeDecides(mask, name, n + 1, m + 2);
        }
      case _ => SafeDecides(mask, name, n + 1, m + 1);
    }
  }

  /** A closing bracket is in no set, so a negated one succeeds with it. */
  lemma NoBracketInside(mask: string, m: nat)
    requires m < |mask|
    ensures !InBody(mask, SetBody(mask, m), ']')
  {
  }

  lemma Inhabited(mask: string, m: nat) returns (c: char)
    requires m < |mask| && '\0' !in mask && !SetBody(mask, m).Malformed? && !EmptyBody(SetBody(mask, m))
    ensures c != '\0' && InBody(mask, SetBody(mask, m), c)
  {
    match SetBody(mask, m)
    case Range(low, _, _) => c := low;
    case Listed(first, close) =>
      c := mask[first];
      assert c == mask[first..close][0];
  }

  /** Where a mask is not safe, some name behind `start` makes the matcher run forever. */
  lemma {:induction false} UnsafeForever(mask: string, m: nat, start: string) returns (name: string)
    requires m <= |mask| && '*' !in mask && '\0' !in mask && '\0' !in start && !Safe(mask, m)
    ensures start <= name && '\0' !in name && Loop(mask, name, |start|, m) == Forever
    decreases |mask| - m
  {
    hide SetBody, InBody;
    var c, next := mask[m], m + 1;
    if mask[m] == '[' {
      var b := SetBody(mask, m);
      if b.Malformed? || Negated(mask, m) {
        NoBracketInside(mask, m);
        return start + "]";
      }
      c := Inhabited(mask, m);
      next := b.close + 1;
    } else if mask[m] == '\\' {
      c, next := mask[m + 1], m + 2;
    }
    name := UnsafeForever(mask, next, start + [c]);
    assert (start + [c])[|start|] == c;
  }

  /** All sets up to an empty one are positive and well-formed. */
  predicate Blocked(mask: string, m: nat)
    requires m <= |mask|
    decreases |mask| - m
  {
    m < |mask| &&
    if mask[m] != '[' then Blocked(mask, m + 1)
    else
      var b := SetBody(mask, m);
      !b.Malformed? && !Negated(mask, m) && (EmptyBody(b) || Blocked(mask, b.close + 1))
  }

  lemma {:induction false} SafeOrBlocked(mask: string, m: nat)
    requires m <= |mask| && '\\' !in mask
    ensures Safe(mask, m) ==> PlainSets(mask, m) || Blocked(mask, m)
    decreases |mask| - m
  {
    if m < |mask| {
      SafeOrBlocked(mask, if mask[m] == '[' && !SetBody(mask, m).Malformed? then SetBody(mask, m).close + 1 else m + 1);
    }
  }

  lemma {:induction false} BlockedMatchesNothing(mask: string, m: nat, name: string, n: nat)
    requires m <= |mask| && n <= |name| && '\\' !in mask && Blocked(mask, m)
    ensures !Matches(mask, m, name, n)
    decreases |mask| - m
  {
    if mask[m] == '*' {
      StarMatches(mask, m, name, n);
      var next := m + 1;
      forall j: nat | n <= j <= |name| ensures !Matches(mask, next, name, j) {
        BlockedMatchesNothing(mask, next, name, j);
      }
    } else if n < |name| {
      if mask[m] != '[' {
        BlockedMatchesNothing(mask, m + 1, name, n + 1);
      } else if !EmptyBody(SetBody(mask, m)) {
        BlockedMatchesNothing(mask, SetBody(mask, m).close + 1, name, n + 1);
      }
    }
  }

  /** The closing bracket of the empty set counts. */
  lemma {:induction false} BlockedCounts(mask: string, m: nat)
    requires 0 < m <= |mask| && '\\' !in mask && Blocked(mask, m)
    ensures Count(mask, m, false) > 0
    decreases |mask| - m
  {
    if mask[m] == '[' {
      BodyWithin(mask, m);
      CountSet(mask, m + 1, SetBody(mask, m).close);
    } else if mask[m] == '*' {
      BlockedCounts(mask, m + 1);
    }
  }

  /** No bracket closes a positive set before its end. */
  lemma BodyWithin(mask: string, m: nat)
    requires m < |mask| && !SetBody(mask, m).Malformed? && !Negated(mask, m)
    ensures m < SetBody(mask, m).close < |mask| && mask[SetBody(mask, m).close] == ']'
    ensures forall x :: m < x < SetBody(mask, m).close ==> mask[x] != ']'
  {
  }

  lemma {:induction false} BlockedLoop(mask: string, name: string, n: nat, m: nat)
    requires n <= |name| && m <= |mask| && '\0' !in name && '\\' !in mask && Blocked(mask, m)
    ensures Loop(mask, name, n, m) == Answer(0)
    ensures m > 0 ==> Star(mask, name, n, m - 1) == Answer(0)
    decreases |mask| - m
  {
    hide SetBody, InBody, EmptyBody, Count;
    if mask[m] == '*' {
      BlockedLoop(mask, name, n, m + 1);
    } else {
      var next := if mask[m] != '[' then m + 1 else SetBody(mask, m).close + 1;
      var empty := mask[m] == '[' && EmptyBody(SetBody(mask, m));
      forall i: nat | i < |name| ensures Passed(mask, name, i, m) == Answer(0) {
        EmptyHoldsNothing(mask, m);
        if !empty {
          BlockedLoop(mask, name, i + 1, next);
        }
      }
      if n < |name| && !empty {
        BlockedLoop(mask, name, n + 1, next);
      }
      EmptyHoldsNothing(mask, m);
      if m > 0 {
        BlockedCounts(mask, m);
        if n < |name| && mask[m] != '?' {
          SearchNothing(mask, name, n, |name| - Count(mask, m, false), m);
        }
      }
    }
  }

  lemma EmptyHoldsNothing(mask: string, m: nat)
    requires m < |mask|
    ensures EmptyBody(SetBody(mask, m)) ==> forall c :: !InBody(mask, SetBody(mask, m), c)
  {
  }

  lemma {:induction false} SearchNothing(mask: string, name: string, n: nat, i: int, h: nat)
    requires i < |name| && n <= |name| && h <= |mask| && '\0' !in name
    requires forall j: nat :: n <= j < |name| ==> Passed(mask, name, j, h) == Answer(0)
    ensures Search(mask, name, n, i, h) == Answer(0)
    decreases i - n
  {
    if i >= n {
      assert Passed(mask, name, i, h) == Answer(0);
      SearchNothing(mask, name, n, i - 1, h);
    }
  }

  /** The first set that is not passed is malformed; or it is negated. */
  predicate Malforms(mask: string, m: nat)
    requires m <= |mask|
    decreases |mask| - m
  {
    m < |mask| &&
    if mask[m] != '[' then Malforms(mask, m + 1)
    else
      var b := SetBody(mask, m);
      b.Malformed? || (!Negated(mask, m) && !EmptyBody(b) && Malforms(mask, b.close + 1))
  }

  predicate Negates(mask: string, m: nat)
    requires m <= |mask|
    decreases |mask| - m
  {
    m < |mask| &&
    if mask[m] != '[' then Negates(mask, m + 1)
    else
      var b := SetBody(mask, m);
      !b.Malformed? && (Negated(mask, m) || (!EmptyBody(b) && Negates(mask, b.close + 1)))
  }

  lemma {:induction false} UnsafeBecause(mask: string, m: nat)
    requires m <= |mask| && '\\' !in mask && !Safe(mask, m)
    ensures Malforms(mask, m) || Negates(mask, m)
    decreases |mask| - m
  {
    if mask[m] != '[' {
      UnsafeBecause(mask, m + 1);
    } else if !SetBody(mask, m).Malformed? && !Negated(mask, m) {
      UnsafeBecause(mask, SetBody(mask, m).close + 1);
    }
  }

  lemma {:induction false} MalformedMatchesNothing(mask: string, m: nat, name: string, n: nat)
    requires m <= |mask| && n <= |name| && '\\' !in mask && Malforms(mask, m)
    ensures !Matches(mask, m, name, n)
    decreases |mask| - m
  {
    if mask[m] == '*' {
      StarMatches(mask, m, name, n);
      var next := m + 1;
      forall j: nat | n <= j <= |name| ensures !Matches(mask, next, name, j) {
        MalformedMatchesNothing(mask, next, name, j);
      }
    } else if n < |name| {
      if mask[m] != '[' {
        MalformedMatchesNothing(mask, m + 1, name, n + 1);
      } else if !SetBody(mask, m).Malformed? {
        MalformedMatchesNothing(mask, SetBody(mask, m).close + 1, name, n + 1);
      }
    }
  }

  /** A well-formed set counts for one character. */
  lemma SetCounts(mask: string, m: nat)
    requires 0 < m < |mask| && '\\' !in mask && mask[m] == '[' && !SetBody(mask, m).Malformed?
    ensures Count(mask, m, false) == 1 + Count(mask, SetBody(mask, m).close + 1, false)
  {
    var close := SetBody(mask, m).close;
    assert forall x :: m < x < close ==> mask[x] != ']';
    CountSet(mask, m + 1, close);
  }

  /** If one candidate is not refused, the search is not without result. */
  lemma {:induction false} SearchFinds(mask: string, name: string, n: nat, i: int, h: nat)
    requires n <= i < |name| && h <= |mask| && '\0' !in name && Passed(mask, name, n, h) != Answer(0)
    ensures Search(mask, name, n, i, h) != Answer(0)
    ensures i == n ==> Search(mask, name, n, i, h) == Passed(mask, name, n, h)
    decreases i - n
  {
    if i > n {
      SearchFinds(mask, name, n, i - 1, h);
    }
  }

  /** A character that takes the matcher past the token at `m`, and where it is then. */
  lemma Passing(mask: string, m: nat) returns (c: char, next: nat)
    requires m < |mask| && '\0' !in mask && '\\' !in mask && mask[m] != '*'
    requires mask[m] == '[' ==>
      var b := SetBody(mask, m); !b.Malformed? && !Negated(mask, m) && !EmptyBody(b)
    ensures c != '\0' && next == (if mask[m] == '[' then SetBody(mask, m).close + 1 else m + 1) && next <= |mask|
    ensures m > 0 ==> Count(mask, m, false) == 1 + Count(mask, next, false)
    ensures forall name: string, n: nat {:trigger Loop(mask, name, n, m)} :: n < |name| && '\0' !in name && name[n] == c ==>
      Loop(mask, name, n, m) == Loop(mask, name, n + 1, next) && (mask[m] != '?' ==> Passed(mask, name, n, m) == Loop(mask, name, n + 1, next))
  {
    if mask[m] == '[' {
      c := Inhabited(mask, m);
      next := SetBody(mask, m).close + 1;
      if m > 0 { SetCounts(mask, m); }
    } else {
      c, next := mask[m], m + 1;
    }
  }

  /** Behind a star (at `m - 1`, if `m` is positive) the matcher has one candidate for a name of
      just the length needed. It passes all tokens up to the negated set, and runs forever. */
  lemma {:induction false} NegatedForever(mask: string, m: nat, start: string) returns (name: string)
    requires m <= |mask| && '\\' !in mask && '\0' !in mask && '\0' !in start && Negates(mask, m)
    ensures start <= name && |start| < |name| && '\0' !in name
    ensures Loop(mask, name, |start|, m) == Forever
    ensures m > 0 ==> |name| == |start| + Count(mask, m, false) && Star(mask, name, |start|, m - 1) == Forever
    decreases |mask| - m
  {
    hide SetBody, InBody, EmptyBody;
    if mask[m] == '*' {
      name := NegatedForever(mask, m + 1, start);
    } else {
      if mask[m] == '[' && Negated(mask, m) {
        if m > 0 { SetCounts(mask, m); }
        var more := if m > 0 then Count(mask, m, false) else 1;
        name := start + seq(more, _ => ']');
        NoBracketInside(mask, m);
        assert name[|start|] == ']';
      } else {
        var c, next := Passing(mask, m);
        name := NegatedForever(mask, next, start + [c]);
        assert name[|start|] == (start + [c])[|start|] == c;
        assert Loop(mask, name, |start|, m) == Forever;
      }
      if m > 0 && mask[m] != '?' {
        SearchFinds(mask, name, |start|, |start|, m);
      }
    }
  }

  /** For any name that is long enough the matcher comes to a malformed set, and does not answer
      zero. */
  lemma {:induction false} MalformedAnswers(mask: string, m: nat, start: string) returns (name: string)
    requires m <= |mask| && '\\' !in mask && '\0' !in mask && '\0' !in start && Malforms(mask, m)
    ensures start <= name && |start| < |name| && '\0' !in name
    ensures Loop(mask, name, |start|, m) != Answer(0)
    ensures m > 0 ==> |name| >= |start| + Count(mask, m, false) && Star(mask, name, |start|, m - 1) != Answer(0)
    decreases |mask| - m
  {
    hide SetBody, InBody, EmptyBody;
    if mask[m] == '*' {
      name := MalformedAnswers(mask, m + 1, start);
    } else {
      if mask[m] == '[' && SetBody(mask, m).Malformed? {
        var more := if m > 0 then 1 + Count(mask, m, false) else 1;
        name := start + seq(more, _ => ']');
      } else {
        var c, next := Passing(mask, m);
        name := MalformedAnswers(mask, next, start + [c]);
        assert name[|start|] == (start + [c])[|start|] == c;
        assert Loop(mask, name, |start|, m) != Answer(0);
      }
      if m > 0 && mask[m] != '?' && Count(mask, m, false) > 0 {
        SearchFinds(mask, name, |start|, |name| - Count(mask, m, false), m);
      }
    }
  }

  /** Exactly which masks without escapes the matcher decides for every name. */
  lemma PlainExactly(mask: string)
    requires '\\' !in mask && '\0' !in mask
    ensures Safe(mask, 0) <==>
      forall name: string :: '\0' !in name ==> Loop(mask, name, 0, 0) == Decision(Matches(mask, 0, name, 0))
  {
    if Safe(mask, 0) {
      SafeOrBlocked(mask, 0);
      forall name: string | '\0' !in name ensures Loop(mask, name, 0, 0) == Decision(Matches(mask, 0, name, 0)) {
        if Blocked(mask, 0) {
          BlockedLoop(mask, name, 0, 0);
          BlockedMatchesNothing(mask, 0, name, 0);
        } else {
          PlainWellFormed(mask, 0, false, false);
          LoopDecides(mask, name, 0, 0, false);
        }
      }
    } else {
      UnsafeBecause(mask, 0);
      if Negates(mask, 0) {
        var name := NegatedForever(mask, 0, "");
      } else {
        var name := MalformedAnswers(mask, 0, "");
        MalformedMatchesNothing(mask, 0, name, 0);
      }
    }
  }

  /** Exactly which masks without stars the matcher decides for every name. */
  lemma StarFreeExactly(mask: string)
    requires '*' !in mask && '\0' !in mask
    ensures Safe(mask, 0) <==>
      forall name: string :: '\0' !in name ==> Loop(mask, name, 0, 0) == Decision(Matches(mask, 0, name, 0))
  {
    if Safe(mask, 0) {
      forall name: string | '\0' !in name ensures Loop(mask, name, 0, 0) == Decision(Matches(mask, 0, name, 0)) {
        SafeDecides(mask, name, 0, 0);
      }
    } else {
      var name := UnsafeForever(mask, 0, "");
    }
  }

  /** A negated set that should match never ends. */
  lemma NegatedSetFails()
    ensures Matches("[^a]", 0, "b", 0) && Loop("[^a]", "b", 0, 0) == Forever
  {
    var mask := "[^a]";
    assert Closing(mask, 2) == 3;
    assert SetBody(mask, 0) == Listed(2, 3);
    assert mask[2..3] == ['a'];
    assert Matches(mask, 4, "b", 1);
  }

  /** A set that is not closed never ends. */
  lemma OpenSetFails()
    ensures !Matches("[ab", 0, "a", 0) && Loop("[ab", "a", 0, 0) == Forever
  {
    var mask := "[ab";
    assert Closing(mask, 3) == 3;
    assert Closing(mask, 2) == 3;
    assert Closing(mask, 1) == 3;
  }

  /** Behind a star an escaped opening bracket is taken for a set. */
  lemma EscapedBracketFails()
    ensures Matches("*\\[a]", 0, "[a]", 0) && Loop("*\\[a]", "[a]", 0, 0) == Answer(0)
  {
    var mask, name := "*\\[a]", "[a]";
    assert Matches(mask, 5, name, 3);
    assert Matches(mask, 4, name, 2);
    assert Matches(mask, 3, name, 1);
    assert Matches(mask, 1, name, 0);
    StarMatches(mask, 0, name, 0);
    assert Count(mask, 5, false) == 0;
    assert Count(mask, 4, false) == 1;
    assert Count(mask, 3, false) == 2;
    assert Count(mask, 2, false) == 3;
    assert Count(mask, 1, false) == 3;
    assert Closing(mask, 4) == 4;
    assert Closing(mask, 3) == 4;
    assert SetBody(mask, 2) == Listed(3, 4);
    assert mask[3..4] == ['a'];
    assert Search(mask, name, 0, -1, 2) == Answer(0);
    assert Search(mask, name, 0, 0, 2) == Answer(0);
    assert Star(mask, name, 0, 0) == Answer(0);
  }

  /** Behind a star an escaped backslash does not count for the length of the rest. */
  lemma EscapedBackslashFails()
    ensures Matches("*\\\\", 0, "\\", 0) && Loop("*\\\\", "\\", 0, 0) == Answer(-1)
  {
    var mask, name := "*\\\\", "\\";
    assert Matches(mask, 3, name, 1);
    assert Matches(mask, 1, name, 0);
    StarMatches(mask, 0, name, 0);
    assert Count(mask, 3, false) == 0;
    assert Count(mask, 2, false) == 0;
    assert Count(mask, 1, false) == 0;
    assert Star(mask, name, 0, 0) == Answer(-1);
  }

  /** Nor does a set that ends in a backslash. */
  lemma BackslashSetFails()
    ensures Matches("*[\\]", 0, "\\", 0) && Loop("*[\\]", "\\", 0, 0) == Answer(-1)
  {
    var mask, name := "*[\\]", "\\";
    assert Closing(mask, 3) == 3;
    assert Closing(mask, 2) == 3;
    assert SetBody(mask, 1) == Listed(2, 3);
    assert mask[2..3] == ['\\'];
    assert Matches(mask, 4, name, 1);
    assert Matches(mask, 1, name, 0);
    StarMatches(mask, 0, name, 0);
    assert Count(mask, 4, false) == 0;
    assert Count(mask, 3, true) == 0;
    assert Count(mask, 2, true) == 0;
    assert Count(mask, 1, false) == 0;
    assert Star(mask, name, 0, 0) == Answer(-1);
  }
}
