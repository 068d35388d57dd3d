/** 32-bit integers in network byte order. */
module NetworkOrder {
  import opened Fragments

  newtype Long = x: int | -0x8000_0000 <= x < 0x8000_0000

  /** The four bytes of an unsigned value, most significant first. */
  function Digits(u: nat): (s: seq<byte>)
    requires u < 0x1_0000_0000
    ensures |s| == 4
  {
    [(u / 0x100 / 0x100 / 0x100) as byte, (u / 0x100 / 0x100 % 0x100) as byte, (u / 0x100 % 0x100) as byte,
     (u % 0x100) as byte]
  }

  function Number(s: seq<byte>): (u: nat)
    requires |s| == 4
    ensures u < 0x1_0000_0000
  {
    ((s[0] as int * 0x100 + s[1] as int) * 0x100 + s[2] as int) * 0x100 + s[3] as int
  }

  lemma NumberDigits(u: nat)
    requires u < 0x1_0000_0000
    ensures Number(Digits(u)) == u
  {
    var v := u / 0x100;
    var w := v / 0x100;
    assert u == v * 0x100 + u % 0x100 && v == w * 0x100 + v % 0x100 && w == w / 0x100 * 0x100 + w % 0x100;
  }

  lemma Digit(q: nat, r: nat)
    requires r < 0x100
    ensures (q * 0x100 + r) / 0x100 == q && (q * 0x100 + r) % 0x100 == r
  {
  }

  lemma DigitsNumber(s: seq<byte>)
    requires |s| == 4
    ensures Digits(Number(s)) == s
  {
    var w := s[0] as int * 0x100 + s[1] as int;
    var v := w * 0x100 + s[2] as int;
    Digit(v, s[3] as int);
    Digit(w, s[2] as int);
    Digit(s[0] as int, s[1] as int);
  }

  function Network(v: Long): (s: seq<byte>)
    ensures |s| == 4
  {
    Digits(if v < 0 then v as int + 0x1_0000_0000 else v as int)
  }

  function Host(s: seq<byte>): (v: Long)
    requires |s| == 4
  {
    var u := Number(s);
    if u < 0x8000_0000 then u as Long else (u - 0x1_0000_0000) as Long
  }

  lemma HostNetwork(v: Long)
    ensures Host(Network(v)) == v
  {
    hide Digits, Number;
    NumberDigits(if v < 0 then v as int + 0x1_0000_0000 else v as int);
  }

  lemma NetworkHost(s: seq<byte>)
    requires |s| == 4
    ensures Network(Host(s)) == s
  {
    hide Digits, Number;
    DigitsNumber(s);
  }

  /** In network order the most significant byte comes first; a negative integer is written as its
      two's complement. */
  predicate BigEndian(s: seq<byte>, v: Long) {
    && |s| == 4
    && s[0] as int * 0x100_0000 + s[1] as int * 0x1_0000 + s[2] as int * 0x100 + s[3] as int ==
       v as int + if v < 0 then 0x1_0000_0000 else 0
  }

  lemma NetworkBigEndian(v: Long)
    ensures BigEndian(Network(v), v)
  {
    hide Digits;
    NumberDigits(if v < 0 then v as int + 0x1_0000_0000 else v as int);
  }

  lemma HostBigEndian(s: seq<byte>)
    requires |s| == 4
    ensures BigEndian(s, Host(s))
  {
  }

  /** Four bytes stand for one integer only. */
  lemma OneInteger(s: seq<byte>, v: Long)
    requires BigEndian(s, v)
    ensures s == Network(v) && v == Host(s)
  {
    NetworkHost(s);
    HostBigEndian(s);
    hide Digits, Number;
  }
}
