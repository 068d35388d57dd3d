/** Encoding and decoding of paths and resource locators, with backslashes that take the meaning
    from the next character. */
module StringEncoding {
  import opened Conversions
  import opened Wrappers

  /** What is written for the start of a string, and how many characters that takes care of. */
  datatype Token = Bad | Token(text: string, taken: nat)

  function EncodeToken(s: string, allowBackslash: bool, allowPercent: bool): (t: Token)
    requires s != "" && Bytes(s)
    ensures t.Token? ==> 0 < t.taken <= |s| && |t.text| <= 3 * t.taken
  {
    if allowBackslash && s[0] == '\\' then
      if |s| < 2 then Bad
      else if IsValidChar(s[1]) then Token([s[1]], 2)
      else Token(ToPercent(s[1]), 2)
    else if allowPercent && s[0] == '%' then
      if |s| >= 3 && IsHex(s[1]) && IsHex(s[2]) then Token(s[..3], 3) else Bad
    else if IsValidChar(s[0]) || IsDelim(s[0]) then Token([s[0]], 1)
    else Token(ToPercent(s[0]), 1)
  }

  function Encoded(s: string, allowBackslash: bool, allowPercent: bool): (o: Option<string>)
    requires Bytes(s)
  {
    if s == "" then Some("")
    else
      match EncodeToken(s, allowBackslash, allowPercent)
      case Bad => None
      case Token(text, taken) => Prepend(text, Encoded(s[taken..], allowBackslash, allowPercent))
  }

  /** What a character becomes that no backslash precedes and that is not taken for the start of an
      escape: letters, digits, the underscore, slashes and dots stay. */
  lemma EncodedOne(c: char, s: string, allowBackslash: bool, allowPercent: bool)
    requires NUL < c && c as int < 256 && Bytes([c] + s) && Bytes(s) && !(allowBackslash && c == '\\') && !(allowPercent && c == '%')
    ensures Encoded([c] + s, allowBackslash, allowPercent) ==
      Prepend(if Kept(c, true) then [c] else ToPercent(c), Encoded(s, allowBackslash, allowPercent))
  {
    assert ([c] + s)[1..] == s;
  }

  /** Behind a backslash also slashes and dots are encoded; a backslash at the end is an error. */
  lemma EncodedBehindBackslash(c: char, s: string, allowPercent: bool)
    requires NUL < c && c as int < 256 && Bytes(['\\', c] + s) && Bytes(s)
    ensures Encoded(['\\', c] + s, true, allowPercent) ==
      Prepend(if Kept(c, false) then [c] else ToPercent(c), Encoded(s, true, allowPercent))
    ensures Bytes("\\") && Encoded("\\", true, allowPercent) == None
  {
    assert (['\\', c] + s)[2..] == s && (['\\', c] + s)[1] == c;
    assert "\\"[0] == '\\';
  }

  /** An escape is copied if that is allowed; it must be complete. */
  lemma EncodedEscape(upper: char, lower: char, s: string, allowBackslash: bool)
    requires Bytes(['%', upper, lower] + s) && Bytes(s)
    ensures Encoded(['%', upper, lower] + s, allowBackslash, true) ==
      if IsHex(upper) && IsHex(lower) then Prepend(['%', upper, lower], Encoded(s, allowBackslash, true)) else None
  {
    var t := ['%', upper, lower] + s;
    assert t[3..] == s && t[..3] == ['%', upper, lower] && t[1] == upper && t[2] == lower;
  }

  lemma HexExactly(c: char)
    ensures IsHex(c) <==> c in UPPER + LOWER
  {
    if IsHex(c) {
      HexDigit(c);
    }
  }

  function FindSlash(s: string, i: nat): (k: nat)
    requires i <= |s|
    ensures i <= k <= |s| && (k < |s| ==> s[k] == '/') && '/' !in s[i..k]
    decreases |s| - i
  {
    if i == |s| || s[i] == '/' then i else FindSlash(s, i + 1)
  }

  /** The length of the host and the server at the start of a resource locator, with the slash
      behind them; all of it if that is missing. */
  function Skipped(s: string): (k: nat)
    ensures k <= |s|
  {
    if |s| < 2 || s[0] != '/' || s[1] != '/' then 0
    else
      var host := FindSlash(s, 2);
      if host == |s| then |s|
      else
        var server := FindSlash(s, host + 1);
        if server == |s| then |s| else server + 1
  }

  /** Only what starts with two slashes is taken for a resource locator; then host and server are
      skipped, or all of it if there are not as many slashes. */
  lemma SkippedExactly(s: string, host: string, server: string, rest: string)
    requires '/' !in host && '/' !in server
    ensures !(|s| >= 2 && s[0] == '/' && s[1] == '/') ==> Skipped(s) == 0
    ensures Skipped("//" + host + "/" + server + "/" + rest) == |host| + |server| + 4
    ensures Skipped("//" + host + "/" + server) == |host| + |server| + 3
    ensures Skipped("//" + host) == |host| + 2
  {
    SlashBehind("//", host, "/" + server + "/" + rest);
    SlashBehind("//" + host + "/", server, "/" + rest);
    assert "//" + host + ("/" + server + "/" + rest) == "//" + host + "/" + server + "/" + rest;
    assert "//" + host + "/" + server + ("/" + rest) == "//" + host + "/" + server + "/" + rest;
    SlashBehind("//", host, "/" + server);
    SlashBehind("//" + host + "/", server, "");
    assert "//" + host + ("/" + server) == "//" + host + "/" + server;
    assert "//" + host + "/" + server + "" == "//" + host + "/" + server;
    SlashBehind("//", host, "");
    assert "//" + host + "" == "//" + host;
    hide FindSlash;
  }

  lemma SlashBehind(front: string, middle: string, back: string)
    requires '/' !in middle && (back == "" || back[0] == '/')
    ensures FindSlash(front + middle + back, |front|) == |front| + |middle|
  {
    var s := front + middle + back;
    forall x | |front| <= x < |front| + |middle| ensures s[x] != '/' {
      assert s[x] == middle[x - |front|];
    }
    FindsAt(s, |front|, |front| + |middle|);
  }

  lemma {:induction false} FindsAt(s: string, i: nat, k: nat)
    requires i <= k <= |s| && (k < |s| ==> s[k] == '/') && forall x :: i <= x < k ==> s[x] != '/'
    ensures FindSlash(s, i) == k
    decreases k - i
  {
    if i < k {
      FindsAt(s, i + 1, k);
    }
  }

  function EncodedString(s: string, allowBackslash: bool, allowPercent: bool): (o: Option<string>)
    requires Bytes(s)
  {
    Prepend(s[..Skipped(s)], Encoded(s[Skipped(s)..], allowBackslash, allowPercent))
  }

  lemma EncodedStep(s: string, i: nat, allowBackslash: bool, allowPercent: bool)
    requires Bytes(s) && i < |s|
    ensures Bytes(s[i..])
    ensures Encoded(s[i..], allowBackslash, allowPercent) ==
      match EncodeToken(s[i..], allowBackslash, allowPercent)
      case Bad => None
      case Token(text, taken) => Prepend(text, Encoded(s[i + taken..], allowBackslash, allowPercent))
  {
    var t := EncodeToken(s[i..], allowBackslash, allowPercent);
    if t.Token? {
      assert s[i..][t.taken..] == s[i + t.taken..];
    }
  }

  /** Encodes a string into a buffer of three times its length, which is never overrun. */
  method EncodeString(org: string, allowBackslash: bool, allowPercent: bool) returns (res: Option<string>)
    requires Bytes(org)
    ensures res == EncodedString(org, allowBackslash, allowPercent)
  {
    var buf := new char[3 * |org| + 1];
    var len := Skipped(org);
    Put(buf, 0, org[..len]);
    res := EncodeRest(org, len, buf, allowBackslash, allowPercent);
  }

  method EncodeRest(org: string, len: nat, buf: array<char>, allowBackslash: bool, allowPercent: bool)
    returns (res: Option<string>)
    requires Bytes(org) && len <= |org| && buf.Length == 3 * |org| + 1 && buf[..len] == org[..len]
    modifies buf
    ensures res == Prepend(org[..len], Encoded(org[len..], allowBackslash, allowPercent))
  {
    hide Encoded, EncodeToken;
    var p: nat, pbuf: nat := len, len;
    var ok := true;
    ghost var whole := Prepend(org[..len], Encoded(org[len..], allowBackslash, allowPercent));
    while p < |org| && ok
      invariant p <= |org| && pbuf <= 3 * p
      invariant ok ==> whole == Prepend(buf[..pbuf], Encoded(org[p..], allowBackslash, allowPercent))
      invariant !ok ==> whole == None
      decreases |org| - p, ok
    {
      EncodedStep(org, p, allowBackslash, allowPercent);
      var t := NextToken(org[p..], allowBackslash, allowPercent);
      if t.Bad? {
        ok := false;
      } else {
        Nested(buf[..pbuf], t.text, Encoded(org[p + t.taken..], allowBackslash, allowPercent));
        Put(buf, pbuf, t.text);
        pbuf := pbuf + |t.text|;
        p := p + t.taken;
      }
    }
    if ok {
      EncodedEnd(org[p..], allowBackslash, allowPercent);
      assert buf[..pbuf] + "" == buf[..pbuf];
      res := Some(buf[..pbuf]);
    } else {
      res := None;
    }
  }

  method NextToken(s: string, allowBackslash: bool, allowPercent: bool) returns (t: Token)
    requires s != "" && Bytes(s)
    ensures t == EncodeToken(s, allowBackslash, allowPercent)
  {
    var p := 0;
    if allowBackslash && s[p] == '\\' {
      p := p + 1;
      if p == |s| {
        return Bad;
      }
      if !IsValidChar(s[p]) {
        t := Token(ToPercent(s[p]), p + 1);
      } else {
        t := Token([s[p]], p + 1);
      }
    } else if allowPercent && s[p] == '%' {
      p := p + 1;
      if !IsHex(At(s, p)) {
        return Bad;
      }
      p := p + 1;
      if !IsHex(At(s, p)) {
        return Bad;
      }
      p := p + 1;
      t := Token(s[..p], p);
    } else if IsValidChar(s[p]) || IsDelim(s[p]) {
      t := Token([s[p]], p + 1);
    } else {
      t := Token(ToPercent(s[p]), p + 1);
    }
  }

  lemma Nested(t: string, u: string, o: Option<string>)
    ensures Prepend(t, Prepend(u, o)) == Prepend(t + u, o) && Prepend("", o) == o
  {
    PrependTwice(t, u, o);
    DecodeNothing(o);
  }

  lemma EncodedEnd(s: string, allowBackslash: bool, allowPercent: bool)
    requires s == ""
    ensures Encoded(s, allowBackslash, allowPercent) == Some("")
  {
  }

  /** Characters that a backslash is put in front of. */
  predicate Special(c: char) {
    c == '\\' || IsDelim(c) || c == '%'
  }

  function DecodedChar(c: char, useBackslash: bool): (s: string) {
    if useBackslash && Special(c) then ['\\', c] else [c]
  }

  function DecodedString(s: string, useBackslash: bool): (o: Option<string>)
    ensures o.Some? ==> |o.value| <= |s|
  {
    if s == "" then Some("")
    else if s[0] != '%' then Prepend([s[0]], DecodedString(s[1..], useBackslash))
    else if |s| < 3 || FromPercent(s[1], s[2]) == NUL then None
    else Prepend(DecodedChar(FromPercent(s[1], s[2]), useBackslash), DecodedString(s[3..], useBackslash))
  }

  lemma DecodedStringOne(c: char, s: string, useBackslash: bool)
    requires c != '%'
    ensures DecodedString([c] + s, useBackslash) == Prepend([c], DecodedString(s, useBackslash))
  {
    assert ([c] + s)[1..] == s;
  }

  /** An escape becomes its character, with a backslash in front of slashes, dots, percent signs and
      backslashes if that is wanted. */
  lemma DecodedStringEscape(i: nat, j: nat, upper: char, lower: char, s: string, useBackslash: bool)
    requires i < 16 && j < 16 && upper in [UPPER[i], LOWER[i]] && lower in [UPPER[j], LOWER[j]]
    ensures var c := (16 * i + j) as char;
      DecodedString(['%', upper, lower] + s, useBackslash) ==
        if i == j == 0 then None
        else Prepend(if useBackslash && c in "\\/.%" then ['\\', c] else [c], DecodedString(s, useBackslash))
  {
    var t := ['%', upper, lower] + s;
    assert t[3..] == s && t[1] == upper && t[2] == lower;
    DigitsPercent(i, j, upper, lower);
    var special := "\\/.%";
    assert special[0] == '\\' && special[1] == '/' && special[2] == '.' && special[3] == '%';
  }

  function EscapeAt(s: string, i: nat): (c: char) {
    FromPercent(At(s, i + 1), At(s, i + 2))
  }

  lemma DecodedStringStep(s: string, i: nat, useBackslash: bool)
    requires i < |s|
    ensures s[i] != '%' ==>
      DecodedString(s[i..], useBackslash) == Prepend([s[i]], DecodedString(s[i + 1..], useBackslash))
    ensures s[i] == '%' && EscapeAt(s, i) == NUL ==> DecodedString(s[i..], useBackslash) == None
    ensures s[i] == '%' && EscapeAt(s, i) != NUL ==> i + 3 <= |s|
    ensures s[i] == '%' && EscapeAt(s, i) != NUL ==>
      DecodedString(s[i..], useBackslash) == Prepend(DecodedChar(EscapeAt(s, i), useBackslash), DecodedString(s[i + 3..], useBackslash))
  {
    assert s[i..][1..] == s[i + 1..];
    if i + 3 <= |s| {
      assert s[i..][3..] == s[i + 3..];
    }
  }

  /** Decodes a string into a buffer of its own length, which is never overrun. */
  method DecodeString(org: string, useBackslash: bool) returns (res: Option<string>)
    ensures res == DecodedString(org, useBackslash)
  {
    var buf := new char[|org| + 1];
    var p: nat, pbuf: nat := 0, 0;
    var ok := true;
    hide DecodedString, FromPercent;
    assert org[0..] == org;
    DecodeNothing(DecodedString(org, useBackslash));
    while p < |org| && ok
      invariant ok ==> p <= |org| && pbuf <= p
      invariant ok ==> DecodedString(org, useBackslash) == Prepend(buf[..pbuf], DecodedString(org[p..], useBackslash))
      invariant !ok ==> DecodedString(org, useBackslash) == None
    {
      DecodedStringStep(org, p, useBackslash);
      var t, n := [org[p]], 1;
      if org[p] == '%' {
        var c := EscapeAt(org, p);
        ok := c != NUL;
        t, n := DecodedChar(c, useBackslash), 3;
      }
      if ok {
        Nested(buf[..pbuf], t, DecodedString(org[p + n..], useBackslash));
        Put(buf, pbuf, t);
        pbuf := pbuf + |t|;
      }
      p := p + n;
    }
    if ok {
      DecodedNothing(org[p..], useBackslash);
      assert buf[..pbuf] + "" == buf[..pbuf];
      res := Some(buf[..pbuf]);
    } else {
      res := None;
    }
  }

  lemma DecodedNothing(s: string, useBackslash: bool)
    requires s == ""
    ensures DecodedString(s, useBackslash) == Some("")
  {
  }

  /** Canonically encoded strings: valid characters and delimiters stand for themselves, and all
      escapes are necessary and written in upper case. */
  predicate Canonical(s: string) {
    s == "" ||
    if s[0] != '%' then (IsValidChar(s[0]) || IsDelim(s[0])) && Canonical(s[1..])
    else
      && |s| >= 3
      && (var c := FromPercent(s[1], s[2]); c != NUL && c as int < 128 && !IsValidChar(c) && ToPercent(c) == s[..3])
      && Canonical(s[3..])
  }

  /** What the encoder writes is canonical, except for escapes that it only copies. */
  lemma {:induction false} EncodedCanonical(s: string, allowBackslash: bool)
    requires Ascii(s)
    ensures var o := Encoded(s, allowBackslash, false); o.Some? ==> Canonical(o.value)
  {
    if s != "" {
      var t := EncodeToken(s, allowBackslash, false);
      if t.Token? && Encoded(s[t.taken..], allowBackslash, false).Some? {
        EncodedCanonical(s[t.taken..], allowBackslash);
        var rest := Encoded(s[t.taken..], allowBackslash, false).value;
        var c := if allowBackslash && s[0] == '\\' then s[1] else s[0];
        PercentRoundTrip(c);
        assert (t.text + rest)[|t.text|..] == rest;
        assert (t.text + rest)[..|t.text|] == t.text;
      }
    }
  }

  lemma {:induction false} EncodeDecodeRest(s: string, allowPercent: bool)
    requires Canonical(s)
    ensures DecodedString(s, true).Some?
    ensures var t := DecodedString(s, true).value; Bytes(t) && Encoded(t, true, allowPercent) == Some(s)
  {
    if s != "" {
      var n := if s[0] != '%' then 1 else 3;
      EncodeDecodeRest(s[n..], allowPercent);
      EncodeDecodeFirst(s, n, allowPercent);
    }
  }

  lemma EncodeDecodeFirst(s: string, n: nat, allowPercent: bool)
    requires Canonical(s) && s != "" && n == (if s[0] != '%' then 1 else 3) && DecodedString(s[n..], true).Some?
    requires var t := DecodedString(s[n..], true).value; Bytes(t) && Encoded(t, true, allowPercent) == Some(s[n..])
    ensures DecodedString(s, true).Some?
    ensures var t := DecodedString(s, true).value; Bytes(t) && Encoded(t, true, allowPercent) == Some(s)
  {
    var rest := DecodedString(s[n..], true).value;
    assert s == s[..n] + s[n..];
    if s[0] == '%' {
      var c := FromPercent(s[1], s[2]);
      EncodedHead(c, true, rest, allowPercent);
      assert DecodedString(s, true) == Some(DecodedChar(c, true) + rest);
    } else {
      EncodedHead(s[0], false, rest, allowPercent);
      assert DecodedString(s, true) == Some([s[0]] + rest);
      assert s[..1] == [s[0]];
    }
  }

  /** The encoder takes what a character was decoded to for one token. */
  lemma EncodedHead(c: char, escaped: bool, rest: string, allowPercent: bool)
    requires Bytes(rest) && Encoded(rest, true, allowPercent).Some? && NUL < c && c as int < 128
    requires if escaped then !IsValidChar(c) else IsValidChar(c) || IsDelim(c)
    ensures var head := if escaped then DecodedChar(c, true) else [c];
      && Bytes(head + rest)
      && Encoded(head + rest, true, allowPercent) ==
         Prepend(if escaped then ToPercent(c) else [c], Encoded(rest, true, allowPercent))
  {
    hide ToPercent;
    var head := if escaped then DecodedChar(c, true) else [c];
    assert (head + rest)[|head|..] == rest;
    assert (head + rest)[0] == head[0] && (|head| == 2 ==> (head + rest)[1] == c);
    assert EncodeToken(head + rest, true, allowPercent) == Token(if escaped then ToPercent(c) else [c], |head|);
  }

  lemma DecodedStart(s: string)
    requires Canonical(s) && s != "" && DecodedString(s, true).Some?
    ensures var t := DecodedString(s, true).value; t != "" && (t[0] == '/' <==> s[0] == '/')
  {
  }

  /** Decoding and encoding with backslashes is the identity on canonical strings that do not
      start like a resource locator. */
  lemma EncodeDecode(s: string, allowPercent: bool)
    requires Canonical(s) && !(|s| >= 2 && s[0] == '/' && s[1] == '/')
    ensures DecodedString(s, true).Some?
    ensures var t := DecodedString(s, true).value; Bytes(t) && EncodedString(t, true, allowPercent) == Some(s)
  {
    EncodeDecodeRest(s, allowPercent);
    var t := DecodedString(s, true).value;
    if s != "" {
      DecodedStart(s);
      if |s| >= 2 && s[0] == '/' {
        EncodeDecodeRest(s[1..], allowPercent);
        DecodedStart(s[1..]);
        assert t[1..] == DecodedString(s[1..], true).value;
      }
    }
    assert Skipped(t) == 0;
    assert t[..0] == "" && t[0..] == t && "" + s == s;
  }
}
