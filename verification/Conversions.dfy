/** Percent coding of names and paths. Strings hold characters of eight bits and no null
    character; a character of 128 or more counts as negative. */
module Conversions {
  import opened Wrappers

  const NUL := '\0'

  predicate IsValidChar(c: char) {
    'A' <= c <= 'Z' || 'a' <= c <= 'z' || '0' <= c <= '9' || c == '_'
  }

  predicate IsDelim(c: char) {
    c == '/' || c == '.'
  }

  predicate IsHex(c: char) {
    '0' <= c <= '9' || 'A' <= c <= 'F' || 'a' <= c <= 'f'
  }

  predicate Bytes(s: string) {
    forall i :: 0 <= i < |s| ==> NUL < s[i] && s[i] as int < 256
  }

  predicate Ascii(s: string) {
    forall i :: 0 <= i < |s| ==> NUL < s[i] && s[i] as int < 128
  }

  /** A string is followed by a null character. */
  function At(s: string, i: nat): (c: char) {
    if i < |s| then s[i] else NUL
  }

  /** A hexadecimal digit, computed as the source computes it from 32 bits of which eight count. */
  function Digit(d: nat): (c: char) {
    var low := d % 256;
    var signed := if low < 128 then low else low - 256;
    ((signed + if d < 10 then '0' as int else '7' as int) % 256) as char
  }

  /** The escape for a character; its sign goes into the upper digit. */
  function ToPercent(c: char): (s: string)
    requires c as int < 256
    ensures |s| == 3
  {
    var d := if c as int < 128 then c as int else c as int + 0xffff_ff00;
    ['%', Digit(d / 16), Digit(d % 16)]
  }

  function HexValue(c: char): (v: nat)
    requires IsHex(c)
    ensures v < 16
  {
    if c <= '9' then (c - '0') as int else if c <= 'F' then c as int - '7' as int else c as int - 'W' as int
  }

  /** The character that two hexadecimal digits stand for, or the null character. */
  function FromPercent(upper: char, lower: char): (c: char)
    ensures c as int < 256
  {
    if IsHex(upper) && IsHex(lower) then (16 * HexValue(upper) + HexValue(lower)) as char else NUL
  }

  lemma DigitValue(d: nat)
    requires d < 16
    ensures IsHex(Digit(d)) && HexValue(Digit(d)) == d
  {
  }

  /** The upper digit of a negative character comes out as a sign or a digit that is too low. */
  lemma NegativeDigit(k: nat)
    requires 8 <= k < 16
    ensures Digit(0x0fff_fff0 + k) == (k + 39) as char
  {
    assert (0x0fff_fff0 + k) % 256 == 240 + k;
  }

  /** The digits of a byte are proper, and give the byte back, exactly if it is not negative. */
  lemma PercentRoundTrip(c: char)
    requires NUL < c && c as int < 256
    ensures FromPercent(ToPercent(c)[1], ToPercent(c)[2]) == c <==> c as int < 128
    ensures c as int < 128 ==> IsHex(ToPercent(c)[1]) && IsHex(ToPercent(c)[2])
  {
    hide Digit;
    var upper, lower := c as int / 16, c as int % 16;
    DigitValue(lower);
    if c as int < 128 {
      DigitValue(upper);
    } else {
      assert (c as int + 0xffff_ff00) / 16 == 0x0fff_fff0 + upper && (c as int + 0xffff_ff00) % 16 == lower;
      NegativeDigit(upper);
    }
  }

  const UPPER := "0123456789ABCDEF"
  const LOWER := "0123456789abcdef"

  /** The digits of an escape, most significant first; that of a character of 128 or more starts
      with a slash or a digit instead. */
  lemma PercentDigits(c: char)
    requires c as int < 256
    ensures var t := ToPercent(c);
      && t[0] == '%' && t[2] == UPPER[c as int % 16]
      && t[1] == if c as int < 128 then UPPER[c as int / 16] else "/0123456"[c as int / 16 - 8]
  {
    hide Digit;
    var upper, lower := c as int / 16, c as int % 16;
    UpperDigit(lower);
    UpperDigit(upper);
    if c as int >= 128 {
      assert (c as int + 0xffff_ff00) / 16 == 0x0fff_fff0 + upper && (c as int + 0xffff_ff00) % 16 == lower;
      NegativeDigit(upper);
      assert (upper + 39) as char == "/0123456"[upper - 8];
    }
  }

  lemma UpperDigit(d: nat)
    requires d < 16
    ensures Digit(d) == UPPER[d]
  {
  }

  /** Two digits in either case stand for a character, anything else for none. */
  lemma DigitsPercent(i: nat, j: nat, upper: char, lower: char)
    requires i < 16 && j < 16 && upper in [UPPER[i], LOWER[i]] && lower in [UPPER[j], LOWER[j]]
    ensures FromPercent(upper, lower) as int == 16 * i + j
  {
    DigitOf(i, upper);
    DigitOf(j, lower);
  }

  lemma DigitOf(d: nat, c: char)
    requires d < 16 && c in [UPPER[d], LOWER[d]]
    ensures IsHex(c) && HexValue(c) == d
  {
  }

  lemma NoDigits(upper: char, lower: char)
    requires FromPercent(upper, lower) != NUL
    ensures upper in UPPER + LOWER && lower in UPPER + LOWER
  {
    HexDigit(upper);
    HexDigit(lower);
  }

  lemma HexDigit(c: char)
    requires IsHex(c)
    ensures c in UPPER + LOWER
  {
    var v := HexValue(c);
    assert c == UPPER[v] || c == LOWER[v];
    assert (UPPER + LOWER)[v] == UPPER[v] && (UPPER + LOWER)[16 + v] == LOWER[v];
  }

  /** Characters that are copied; `delims` says whether slashes and dots are. */
  predicate Kept(c: char, delims: bool) {
    IsValidChar(c) || (delims && IsDelim(c))
  }

  function Escaped(c: char, delims: bool): (s: string)
    requires c as int < 256
  {
    if Kept(c, delims) then [c] else ToPercent(c)
  }

  function ToPercents(s: string, delims: bool): (t: string)
    requires Bytes(s)
  {
    if s == "" then "" else Escaped(s[0], delims) + ToPercents(s[1..], delims)
  }

  /** Letters, digits and the underscore are copied, and in paths slashes and dots. */
  lemma KeptExactly(c: char, delims: bool)
    ensures Kept(c, delims) <==>
      var code := c as int;
      48 <= code <= 57 || 65 <= code <= 90 || code == 95 || 97 <= code <= 122 || (delims && (code == 46 || code == 47))
  {
  }

  /** Encoding goes character by character. */
  lemma {:induction false} ToPercentsAppend(s: string, t: string, delims: bool)
    requires Bytes(s) && Bytes(t)
    ensures Bytes(s + t) && ToPercents(s + t, delims) == ToPercents(s, delims) + ToPercents(t, delims)
    decreases s
  {
    hide Escaped;
    if s == "" {
      assert s + t == t;
    } else {
      ToPercentsAppend(s[1..], t, delims);
      hide Bytes;
      var u := s + t;
      assert u[1..] == s[1..] + t && u[0] == s[0];
    }
  }

  lemma ToPercentsOne(c: char, delims: bool)
    requires NUL < c && c as int < 256
    ensures ToPercents([c], delims) == if Kept(c, delims) then [c] else ToPercent(c)
  {
    assert [c][1..] == "";
  }

  /** How many characters have to be converted. */
  function ToConvert(s: string, delims: bool): (n: nat) {
    if s == "" then 0 else (if Kept(s[0], delims) then 0 else 1) + ToConvert(s[1..], delims)
  }

  lemma {:induction false} ToPercentsLength(s: string, delims: bool)
    requires Bytes(s)
    ensures |ToPercents(s, delims)| == |s| + 2 * ToConvert(s, delims)
  {
    if s != "" {
      ToPercentsLength(s[1..], delims);
    }
  }

  /** Writes one escape, or one character, into a buffer. */
  method Put(buf: array<char>, j: nat, t: string)
    requires j + |t| <= buf.Length
    modifies buf
    ensures buf[..j + |t|] == old(buf[..j]) + t
  {
    var k := 0;
    while k < |t|
      invariant 0 <= k <= |t| && buf[..j + k] == old(buf[..j]) + t[..k]
    {
      buf[j + k] := t[k];
      k := k + 1;
      assert t[..k] == t[..k - 1] + [t[k - 1]];
    }
    assert t[..|t|] == t;
  }

  method CountToConvert(org: string, delims: bool) returns (convert: nat)
    ensures convert == ToConvert(org, delims)
  {
    convert := 0;
    var i := 0;
    assert org[0..] == org;
    while i < |org|
      invariant 0 <= i <= |org| && convert + ToConvert(org[i..], delims) == ToConvert(org, delims)
    {
      if !Kept(org[i], delims) {
        convert := convert + 1;
      }
      i := i + 1;
    }
  }

  lemma ToPercentsStep(org: string, i: nat, delims: bool)
    requires Bytes(org) && i < |org|
    ensures Bytes(org[i..]) && Bytes(org[i + 1..])
    ensures ToPercents(org[i..], delims) == Escaped(org[i], delims) + ToPercents(org[i + 1..], delims)
  {
    assert org[i..][1..] == org[i + 1..];
  }

  /** Fills a buffer of the right length with the escaped string. */
  method Convert(org: string, delims: bool, buf: array<char>)
    requires Bytes(org) && buf.Length == |ToPercents(org, delims)|
    modifies buf
    ensures buf[..] == ToPercents(org, delims)
  {
    hide ToPercents, Escaped;
    var i: nat, j: nat := 0, 0;
    assert org[0..] == org;
    ghost var rest := ToPercents(org, delims);
    while i < |org|
      invariant 0 <= i <= |org| && j <= buf.Length && rest == ToPercents(org[i..], delims)
      invariant buf[..j] + rest == ToPercents(org, delims)
    {
      ToPercentsStep(org, i, delims);
      var t := Escaped(org[i], delims);
      Put(buf, j, t);
      rest := ToPercents(org[i + 1..], delims);
      j := j + |t|;
      i := i + 1;
    }
    NothingLeft(org[i..], delims);
    assert buf[..j] == buf[..];
  }

  lemma NothingLeft(s: string, delims: bool)
    requires s == ""
    ensures ToPercents(s, delims) == ""
  {
  }

  /** Escapes what is not to be kept. The buffer, sized by a first count, is filled exactly. */
  method StringToPercent(org: string, delims: bool) returns (res: string)
    requires Bytes(org)
    ensures res == ToPercents(org, delims)
  {
    var convert := CountToConvert(org, delims);
    ToPercentsLength(org, delims);
    if convert == 0 {
      NothingToConvert(org, delims);
      return org;
    }
    var buf := new char[|org| + convert * 2];
    Convert(org, delims, buf);
    res := buf[..];
  }

  lemma {:induction false} NothingToConvert(s: string, delims: bool)
    requires Bytes(s) && ToConvert(s, delims) == 0
    ensures ToPercents(s, delims) == s
  {
    if s != "" {
      NothingToConvert(s[1..], delims);
    }
  }

  function Prepend(t: string, o: Option<string>): (r: Option<string>) {
    if o.None? then None else Some(t + o.value)
  }

  /** The string that an escaped one stands for, unless an escape in it is malformed or stands
      for the null character. */
  function Decoded(s: string): (o: Option<string>) {
    if s == "" then Some("")
    else if s[0] != '%' then Prepend([s[0]], Decoded(s[1..]))
    else if |s| < 3 || FromPercent(s[1], s[2]) == NUL then None
    else Prepend([FromPercent(s[1], s[2])], Decoded(s[3..]))
  }

  /** Decoding goes escape by escape: what is not part of one stands for itself. */
  lemma DecodedOne(c: char, s: string)
    requires c != '%'
    ensures Decoded([c] + s) == Prepend([c], Decoded(s))
  {
    assert ([c] + s)[1..] == s;
  }

  lemma DecodedEscape(i: nat, j: nat, upper: char, lower: char, s: string)
    requires i < 16 && j < 16 && upper in [UPPER[i], LOWER[i]] && lower in [UPPER[j], LOWER[j]]
    ensures Decoded(['%', upper, lower] + s) == if i == j == 0 then None else Prepend([(16 * i + j) as char], Decoded(s))
  {
    var t := ['%', upper, lower] + s;
    assert t[3..] == s && t[1] == upper && t[2] == lower;
    DigitsPercent(i, j, upper, lower);
  }

  /** Decoding undoes encoding exactly for strings of characters below 128. */
  lemma {:induction false} DecodeEncode(s: string, delims: bool)
    requires Bytes(s)
    ensures Decoded(ToPercents(s, delims)) == Some(s) <==> Ascii(s)
  {
    if s != "" {
      DecodeEncode(s[1..], delims);
      DecodeHead(s[0], delims, ToPercents(s[1..], delims));
      assert Ascii(s) <==> s[0] as int < 128 && Ascii(s[1..]);
      assert s == [s[0]] + s[1..];
    }
  }

  lemma DecodeHead(c: char, delims: bool, rest: string)
    requires NUL < c && c as int < 256
    ensures var o := Decoded(Escaped(c, delims) + rest);
      && (c as int < 128 ==> o == Prepend([c], Decoded(rest)))
      && (c as int >= 128 && o.Some? ==> o.value != "" && o.value[0] != c)
  {
    hide ToPercent, FromPercent;
    var t := Escaped(c, delims);
    PercentRoundTrip(c);
    assert (t + rest)[|t|..] == rest;
    if !Kept(c, delims) {
      PercentStart(c);
      assert (t + rest)[0] == '%' && (t + rest)[1] == t[1] && (t + rest)[2] == t[2];
    } else {
      assert c as int < 128 && c != '%';
    }
  }

  lemma PercentStart(c: char)
    requires c as int < 256
    ensures ToPercent(c)[0] == '%'
  {
  }

  /** How many escapes a first count finds; each takes the two characters behind it along. */
  function Escapes(s: string): (n: nat) {
    if s == "" then 0
    else if s[0] != '%' then Escapes(s[1..])
    else 1 + if |s| < 3 then 0 else Escapes(s[3..])
  }

  lemma {:induction false} DecodedLength(s: string)
    ensures Decoded(s).Some? ==> |Decoded(s).value| == |s| - 2 * Escapes(s)
    ensures |s| < 2 * Escapes(s) <==> s == "%"
  {
    if s != "" {
      if s[0] != '%' {
        DecodedLength(s[1..]);
      } else if |s| >= 3 {
        DecodedLength(s[3..]);
      }
    }
  }

  method CountEscapes(org: string) returns (convert: nat)
    ensures convert == Escapes(org)
  {
    convert := 0;
    var i := 0;
    assert org[0..] == org;
    while i < |org|
      invariant 0 <= i && convert + (if i < |org| then Escapes(org[i..]) else 0) == Escapes(org)
      decreases |org| - i
    {
      if org[i] == '%' {
        convert := convert + 1;
        assert i + 3 <= |org| ==> org[i..][3..] == org[i + 3..];
        i := i + 2;
      } else {
        assert org[i..][1..] == org[i + 1..];
      }
      i := i + 1;
    }
  }

  lemma DecodedStep(s: string, i: nat)
    requires i < |s|
    ensures s[i] != '%' ==> Decoded(s[i..]) == Prepend([s[i]], Decoded(s[i + 1..]))
    ensures s[i] == '%' ==> var c := FromPercent(At(s, i + 1), At(s, i + 2));
      if c == NUL then Decoded(s[i..]) == None
      else i + 3 <= |s| && Decoded(s[i..]) == Prepend([c], Decoded(s[i + 3..]))
  {
    assert s[i..][1..] == s[i + 1..];
    if i + 3 <= |s| {
      assert s[i..][3..] == s[i + 3..];
    }
  }

  /** The decoder comes to a percent sign that ends the string. */
  predicate Overruns(s: string) {
    s == "%" ||
    (s != "" && if s[0] != '%' then Overruns(s[1..])
                else |s| >= 3 && FromPercent(s[1], s[2]) != NUL && Overruns(s[3..]))
  }

  /** That is so exactly if the string ends in one, and what is before it can be decoded. */
  lemma {:induction false} OverrunsExactly(s: string)
    ensures Overruns(s) <==> s != "" && s[|s| - 1] == '%' && Decoded(s[..|s| - 1]).Some?
  {
    if |s| > 1 {
      var front := s[..|s| - 1];
      if s[0] != '%' {
        OverrunsExactly(s[1..]);
        assert front[1..] == s[1..][..|s| - 2];
      } else if |s| > 3 {
        OverrunsExactly(s[3..]);
        assert front[3..] == s[3..][..|s| - 4];
      }
    }
  }

  lemma RestStep(s: string, i: nat)
    requires i < |s| && s[i..] != "%"
    ensures s[i] != '%' ==> Escapes(s[i..]) == Escapes(s[i + 1..]) && (Overruns(s[i..]) <==> Overruns(s[i + 1..]))
    ensures s[i] == '%' && i + 3 <= |s| ==> Escapes(s[i..]) == 1 + Escapes(s[i + 3..])
    ensures s[i] == '%' && i + 3 <= |s| && FromPercent(s[i + 1], s[i + 2]) != NUL ==> (Overruns(s[i..]) <==> Overruns(s[i + 3..]))
    ensures s[i] == '%' && FromPercent(At(s, i + 1), At(s, i + 2)) == NUL ==> !Overruns(s[i..])
    ensures 2 * Escapes(s[i..]) <= |s| - i
  {
    DecodedLength(s[i..]);
    assert s[i..][1..] == s[i + 1..];
    if i + 3 <= |s| {
      assert s[i..][3..] == s[i + 3..];
    }
  }

  /** What the decoder comes to: the string, a malformed escape, or a character to be written at
      an index outside its buffer. */
  datatype Decoding = Text(text: string) | BadEscape | Outside(index: nat)

  function DecodingOf(s: string): (d: Decoding) {
    if Overruns(s) then Outside(BufferSize(s))
    else match Decoded(s) case Some(t) => Text(t) case None => BadEscape
  }

  /** The size of the buffer, with space for a final null character. */
  function BufferSize(s: string): (n: nat) {
    DecodedLength(s);
    |s| - 2 * Escapes(s) + 1
  }

  lemma {:induction false} DecodesNot(s: string)
    ensures Overruns(s) ==> Decoded(s).None?
  {
    if s != "" && s != "%" {
      DecodesNot(if s[0] != '%' || |s| < 3 then s[1..] else s[3..]);
    }
  }

  /** Where the decoder overruns, what it has decoded before fills the buffer, final null character
      and all. */
  lemma OverrunsBuffer(s: string)
    requires Overruns(s)
    ensures s[|s| - 1] == '%' && Decoded(s[..|s| - 1]).Some? && |Decoded(s[..|s| - 1]).value| == BufferSize(s)
  {
    OverrunsExactly(s);
    DecodedLength(s[..|s| - 1]);
    OneEscapeMore(s);
  }

  lemma {:induction false} OneEscapeMore(s: string)
    requires Overruns(s)
    ensures Escapes(s) == 1 + Escapes(s[..|s| - 1])
  {
    if s != "%" {
      var front := s[..|s| - 1];
      var n := if s[0] != '%' then 1 else 3;
      OneEscapeMore(s[n..]);
      assert front[n..] == s[n..][..|s| - n - 1];
    }
  }

  /** Decodes an escaped string into a buffer sized by a first count. */
  method StringFromPercent(org: string) returns (res: Decoding)
    ensures res == DecodingOf(org)
  {
    var convert := CountEscapes(org);
    DecodedLength(org);
    var buf := new char[|org| - convert * 2 + 1];
    res := Decode(org, buf);
  }

  method Decode(org: string, buf: array<char>) returns (res: Decoding)
    requires buf.Length == BufferSize(org)
    modifies buf
    ensures res == DecodingOf(org)
  {
    hide Decoded, Overruns, Escapes, FromPercent;
    var i: nat, j: nat := 0, 0;
    var ok := true;
    assert org[0..] == org;
    DecodeNothing(Decoded(org));
    while i < |org| && ok
      invariant ok ==> i <= |org| && (Overruns(org) <==> Overruns(org[i..]))
      invariant ok ==> buf.Length - 1 - j == |org| - i - 2 * Escapes(org[i..])
      invariant ok ==> j <= buf.Length && Decoded(org) == Prepend(buf[..j], Decoded(org[i..]))
      invariant !ok ==> Decoded(org) == None && !Overruns(org)
    {
      LonePercent(org[i..]);
      if j >= buf.Length {
        return Outside(j);
      }
      RestStep(org, i);
      DecodedStep(org, i);
      if org[i] == '%' {
        var c := FromPercent(At(org, i + 1), At(org, i + 2));
        buf[j] := c;
        ok := c != NUL;
        i := i + 2;
      } else {
        buf[j] := org[i];
      }
      assert buf[..j + 1] == buf[..j] + [buf[j]];
      PrependTwice(buf[..j], [buf[j]], if i + 1 <= |org| then Decoded(org[i + 1..]) else None);
      i, j := i + 1, j + 1;
    }
    if ok {
      DecodedEnd(org[i..]);
      assert buf[..j] + "" == buf[..j];
      res := Text(buf[..j]);
    } else {
      res := BadEscape;
    }
  }

  /** The buffer is used up exactly in front of a lone percent sign. */
  lemma LonePercent(s: string)
    ensures s == "%" ==> Overruns(s)
    ensures |s| < 2 * Escapes(s) <==> s == "%"
  {
    DecodedLength(s);
    assert s == "%" ==> s[0] == '%';
  }

  lemma DecodeNothing(o: Option<string>)
    ensures Prepend("", o) == o
  {
    assert o.Some? ==> "" + o.value == o.value;
  }

  lemma PrependTwice(t: string, u: string, o: Option<string>)
    ensures Prepend(t, Prepend(u, o)) == Prepend(t + u, o)
  {
    assert o.Some? ==> t + (u + o.value) == (t + u) + o.value;
  }

  lemma DecodedEnd(s: string)
    requires s == ""
    ensures Decoded(s) == Some("") && !Overruns(s)
  {
  }
}
