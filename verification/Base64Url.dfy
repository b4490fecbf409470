/** The base64url codec of the gateway's token check. Bytes are integers below 256; the shifts and
  * masks of the original are the divisions and remainders by powers of two written here. */
module Base64Url {
  import opened Wrappers

  type Byte = x: int | 0 <= x < 256
  type Sextet = x: int | 0 <= x < 64

  const UPPER: string := "ABCDEFGHIJKLMNOPQRSTUVWXYZ"
  const LOWER: string := "abcdefghijklmnopqrstuvwxyz"
  const DIGITS: string := "0123456789"
  const TABLE: string := UPPER + LOWER + DIGITS + "-_"

  lemma TableHasAllSextets()
    ensures |TABLE| == 64
  {
  }

  /** The table's letters, run by run. */
  function Letter(x: Sextet): char {
    if x < 26 then ('A' as int + x) as char
    else if x < 52 then ('a' as int + (x - 26)) as char
    else if x < 62 then ('0' as int + (x - 52)) as char
    else if x == 62 then '-' else '_'
  }

  lemma UpperRun(x: nat)
    requires x < 26
    ensures UPPER[x] as int == x + 'A' as int
  {
  }

  lemma LowerRun(x: nat)
    requires x < 26
    ensures LOWER[x] as int == x + 'a' as int
  {
  }

  lemma DigitRun(x: nat)
    requires x < 10
    ensures DIGITS[x] as int == x + '0' as int
  {
  }

  lemma RunLengths()
    ensures |UPPER| == 26 && |LOWER| == 26 && |DIGITS| == 10
  {
  }

  lemma PickRun(a: string, b: string, c: string, d: string, x: nat)
    requires x < |a| + |b| + |c| + |d|
    ensures (a + b + c + d)[x] ==
      if x < |a| then a[x]
      else if x < |a| + |b| then b[x - |a|]
      else if x < |a| + |b| + |c| then c[x - |a| - |b|]
      else d[x - |a| - |b| - |c|]
  {
  }

  lemma LetterIsInTheTable(x: Sextet)
    ensures x < |TABLE| && TABLE[x] == Letter(x)
  {
    hide UPPER, LOWER, DIGITS;
    RunLengths();
    PickRun(UPPER, LOWER, DIGITS, "-_", x);
    if x < 26 {
      UpperRun(x);
    } else if x < 52 {
      LowerRun(x - 26);
    } else if x < 62 {
      DigitRun(x - 52);
    }
  }

  /** The three octets of a group as one 24-bit number. */
  function Triple(a: Byte, b: Byte, c: Byte): (t: nat)
    ensures t < 0x1000000
  {
    a * 0x10000 + b * 0x100 + c
  }

  /** Four sextets as one 24-bit number. */
  function Sextets(a: Sextet, b: Sextet, c: Sextet, d: Sextet): nat {
    a * 0x40000 + b * 0x1000 + c * 0x40 + d
  }

  /** The four sextets of a 24-bit number: shift right by 18, 12, 6 or 0 and keep six bits. */
  function Sextet1(t: nat): Sextet { t / 0x40000 % 64 }
  function Sextet2(t: nat): Sextet { t / 0x1000 % 64 }
  function Sextet3(t: nat): Sextet { t / 0x40 % 64 }
  function Sextet4(t: nat): Sextet { t % 64 }

  /** Its three octets: shift right by 16, 8 or 0 and keep eight bits. */
  function Octet1(t: nat): Byte { t / 0x10000 % 256 }
  function Octet2(t: nat): Byte { t / 0x100 % 256 }
  function Octet3(t: nat): Byte { t % 256 }

  /** The letters for the first `count` octets of a triple. */
  function Letters(t: nat, count: nat): string {
    [Letter(Sextet1(t)), Letter(Sextet2(t))]
    + (if count > 1 then [Letter(Sextet3(t))] else [])
    + (if count > 2 then [Letter(Sextet4(t))] else [])
  }

  /** The letters of one group of up to three octets, absent octets read as zero. */
  function EncodeGroup(group: seq<Byte>): string
    requires 1 <= |group| <= 3
  {
    var b := if |group| > 1 then group[1] else 0;
    var c := if |group| > 2 then group[2] else 0;
    Letters(Triple(group[0], b, c), |group|)
  }

  function Front(data: seq<Byte>): seq<Byte> {
    if |data| <= 3 then data else data[..3]
  }

  function Rest(data: seq<Byte>): seq<Byte> {
    if |data| <= 3 then [] else data[3..]
  }

  function Encode(data: seq<Byte>): string
    decreases |data|
  {
    if |data| == 0 then "" else EncodeGroup(Front(data)) + Encode(Rest(data))
  }

  /** What is left to encode from octet `i` on. */
  function Tail(data: seq<Byte>, i: nat): seq<Byte> {
    if i < |data| then data[i..] else []
  }

  /** The letters of the group that starts at octet `i`, its missing octets given as zero. */
  lemma GroupAt(data: seq<Byte>, i: nat, t: nat)
    requires i < |data|
    requires t == Triple(data[i], if i + 1 < |data| then data[i + 1] else 0, if i + 2 < |data| then data[i + 2] else 0)
    ensures Encode(Tail(data, i)) == Letters(t, |data| - i) + Encode(Tail(data, i + 3))
  {
    hide Letter, Sextet1, Sextet2, Sextet3, Sextet4, Triple;
    var tail := Tail(data, i);
    assert Rest(tail) == Tail(data, i + 3);
    assert Encode(tail) == EncodeGroup(Front(tail)) + Encode(Rest(tail));
  }

  method Base64UrlEncode(data: seq<Byte>) returns (out: string)
    ensures out == Encode(data)
  {
    hide TABLE, Letter, Sextet1, Sextet2, Sextet3, Sextet4, Triple, Encode;
    out := "";
    var i := 0;
    assert Encode(Tail(data, 0)) == Encode(data) by {
      assert Tail(data, 0) == data;
    }
    while i < |data|
      invariant 0 <= i
      invariant out + Encode(Tail(data, i)) == Encode(data)
    {
      var octetA := data[i];
      var octetB := if i + 1 < |data| then data[i + 1] else 0;
      var octetC := if i + 2 < |data| then data[i + 2] else 0;
      var triple := Triple(octetA, octetB, octetC);
      LetterIsInTheTable(Sextet1(triple)); LetterIsInTheTable(Sextet2(triple));
      LetterIsInTheTable(Sextet3(triple)); LetterIsInTheTable(Sextet4(triple));
      ghost var before := out;
      out := out + [TABLE[Sextet1(triple)]];
      out := out + [TABLE[Sextet2(triple)]];
      if i + 1 < |data| {
        out := out + [TABLE[Sextet3(triple)]];
      }
      if i + 2 < |data| {
        out := out + [TABLE[Sextet4(triple)]];
      }
      assert out == before + Letters(triple, |data| - i);
      Reassociate(data, i, triple, before);
      i := i + 3;
    }
    NothingLeft(data, i);
  }

  lemma Reassociate(data: seq<Byte>, i: nat, t: nat, before: string)
    requires i < |data|
    requires t == Triple(data[i], if i + 1 < |data| then data[i + 1] else 0, if i + 2 < |data| then data[i + 2] else 0)
    ensures before + Letters(t, |data| - i) + Encode(Tail(data, i + 3)) == before + Encode(Tail(data, i))
  {
    GroupAt(data, i, t);
    assert before + Letters(t, |data| - i) + Encode(Tail(data, i + 3))
        == before + (Letters(t, |data| - i) + Encode(Tail(data, i + 3)));
  }

  lemma NothingLeft(data: seq<Byte>, i: nat)
    requires |data| <= i
    ensures Encode(Tail(data, i)) == ""
  {
  }

  /** The value of a letter, -1 for a character outside both base64 alphabets. */
  function DecodeBase64UrlChar(ch: char): (v: int)
    ensures -1 <= v < 64
  {
    if 'A' <= ch <= 'Z' then ch as int - 'A' as int
    else if 'a' <= ch <= 'z' then ch as int - 'a' as int + 26
    else if '0' <= ch <= '9' then ch as int - '0' as int + 52
    else if ch == '-' || ch == '+' then 62
    else if ch == '_' || ch == '/' then 63
    else -1
  }

  /** Places three and four of a group: the padding sign reads as -2. */
  function TailValue(ch: char): (v: int)
    ensures -2 <= v < 64
    ensures v == -2 <==> ch == '='
  {
    if ch == '=' then -2 else DecodeBase64UrlChar(ch)
  }

  /** The guard of the decoder as it is written, and with its intent restored: -2 is padding and -1
    * is an invalid character. */
  datatype Guard = AsWritten | Repaired {
    predicate Rejects(a: int, b: int, c: int, d: int) {
      match this
      case AsWritten => a < 0 || b < 0 || c < -1 || d < -1
      case Repaired => a < 0 || b < 0 || c == -1 || d == -1
    }
  }

  function OrZero(v: int): (x: Sextet)
    requires v < 64
  {
    if v >= 0 then v else 0
  }

  /** The octets of a 24-bit number, the second and third only where the characters are no padding. */
  function GroupOctets(t: nat, third: char, fourth: char): seq<Byte> {
    [Octet1(t)]
    + (if third != '=' then [Octet2(t)] else [])
    + (if fourth != '=' then [Octet3(t)] else [])
  }

  /** The octets of a group of four characters. */
  function DecodeChars(guard: Guard, p: char, q: char, r: char, s: char): Option<seq<Byte>> {
    var a, b := DecodeBase64UrlChar(p), DecodeBase64UrlChar(q);
    var c, d := TailValue(r), TailValue(s);
    if guard.Rejects(a, b, c, d) then None
    else
      var t := Sextets(OrZero(a), OrZero(b), OrZero(c), OrZero(d));
      Some(GroupOctets(t, r, s))
  }

  function DecodeGroup(guard: Guard, group: string): Option<seq<Byte>>
    requires |group| == 4
  {
    DecodeChars(guard, group[0], group[1], group[2], group[3])
  }

  function DecodePadded(guard: Guard, s: string): Option<seq<Byte>>
    requires |s| % 4 == 0
    decreases |s|
  {
    if |s| == 0 then Some([])
    else Chain(DecodeGroup(guard, s[..4]), DecodePadded(guard, s[4..]))
  }

  /** Two decoded stretches one after the other; a rejected one rejects both. */
  function Chain(front: Option<seq<Byte>>, rest: Option<seq<Byte>>): Option<seq<Byte>> {
    if front.Some? && rest.Some? then Some(front.value + rest.value) else None
  }

  /** Places free in the last group. */
  function Missing(n: nat): nat {
    (4 - n % 4) % 4
  }

  lemma OneLessMissing(n: nat)
    ensures Missing(n) == 0 <==> n % 4 == 0
    ensures n % 4 != 0 ==> Missing(n + 1) == Missing(n) - 1
    ensures Missing(n + 4) == Missing(n)
  {
  }

  /** Fill up with padding signs to a whole number of groups. */
  function Pad(s: string): (padded: string)
    ensures |padded| % 4 == 0
    ensures |s| % 4 == 0 ==> padded == s
    decreases Missing(|s|)
  {
    OneLessMissing(|s|);
    if |s| % 4 == 0 then s else Pad(s + "=")
  }

  lemma PadOneMore(s: string)
    requires |s| % 4 != 0
    ensures Pad(s + "=") == Pad(s)
  {
    hide Missing;
  }

  function Decode(guard: Guard, s: string): Option<seq<Byte>> {
    DecodePadded(guard, Pad(s))
  }

  method PadToGroups(input: string) returns (b64: string)
    ensures b64 == Pad(input)
  {
    hide Pad, Missing;
    b64 := input;
    while |b64| % 4 != 0
      invariant Pad(b64) == Pad(input)
      decreases Missing(|b64|)
    {
      OneLessMissing(|b64|);
      PadOneMore(b64);
      b64 := b64 + "=";
    }
  }

  method Base64UrlDecode(input: string) returns (result: Option<seq<Byte>>)
    ensures result == Decode(AsWritten, input)
  {
    hide Octet1, Octet2, Octet3, DecodeBase64UrlChar, GroupOctets, Sextets, Pad, DecodePadded, Aligned, LeftAt, Chain;
    var b64 := PadToGroups(input);
    var out: seq<Byte> := [];
    var i := 0;
    LeftAtStart(b64);
    while i < |b64|
      invariant Aligned(b64, i)
      invariant Decode(AsWritten, input) == Chain(Some(out), LeftAt(b64, i))
      decreases |b64| - i
    {
      LeftAtStep(b64, i, out);
      ghost var before := out;
      var a := DecodeBase64UrlChar(b64[i]);
      var b := DecodeBase64UrlChar(b64[i + 1]);
      var c := if b64[i + 2] == '=' then -2 else DecodeBase64UrlChar(b64[i + 2]);
      var d := if b64[i + 3] == '=' then -2 else DecodeBase64UrlChar(b64[i + 3]);
      if a < 0 || b < 0 || c < -1 || d < -1 {
        return None;
      }
      var triple := Sextets(a, b, if c >= 0 then c else 0, if d >= 0 then d else 0);
      out := out + [Octet1(triple)];
      if b64[i + 2] != '=' {
        out := out + [Octet2(triple)];
      }
      if b64[i + 3] != '=' {
        out := out + [Octet3(triple)];
      }
      AppendsOctets(before, triple, b64[i + 2], b64[i + 3]);
      i := i + 4;
    }
    LeftAtEnd(out, b64, i);
    return Some(out);
  }

  /** A group is refused by the guard or decoded from its values, negative ones read as zero. */
  lemma DecodesByGuard(p: char, q: char, r: char, s: char)
    ensures
      var a, b, c, d := DecodeBase64UrlChar(p), DecodeBase64UrlChar(q), TailValue(r), TailValue(s);
      if a < 0 || b < 0 || c < -1 || d < -1 then DecodeChars(AsWritten, p, q, r, s) == None
      else DecodeChars(AsWritten, p, q, r, s) == Some(GroupOctets(Sextets(a, b, OrZero(c), OrZero(d)), r, s))
  {
    hide DecodeBase64UrlChar, GroupOctets, Sextets;
  }

  lemma AppendsOctets(before: seq<Byte>, t: nat, r: char, s: char)
    ensures before + GroupOctets(t, r, s)
         == (var one := before + [Octet1(t)];
             var two := if r != '=' then one + [Octet2(t)] else one;
             if s != '=' then two + [Octet3(t)] else two)
  {
    hide Octet1, Octet2, Octet3;
  }

  /** Position `i` starts a group of the padded input. */
  ghost predicate Aligned(b64: string, i: nat) {
    i <= |b64| && |b64[i..]| % 4 == 0
  }

  /** What the groups from position `i` on decode to. */
  ghost function LeftAt(b64: string, i: nat): Option<seq<Byte>> {
    if Aligned(b64, i) then DecodePadded(AsWritten, b64[i..]) else None
  }

  lemma LeftAtStart(b64: string)
    requires |b64| % 4 == 0
    ensures Aligned(b64, 0) && Chain(Some([]), LeftAt(b64, 0)) == DecodePadded(AsWritten, b64)
  {
    assert b64[0..] == b64;
    ChainWithNothing(DecodePadded(AsWritten, b64));
  }

  lemma LeftAtEnd(out: seq<Byte>, b64: string, i: nat)
    requires Aligned(b64, i) && i >= |b64|
    ensures Chain(Some(out), LeftAt(b64, i)) == Some(out)
  {
    assert out + [] == out;
  }

  /** One turn of the decoding loop at position `i`. */
  lemma LeftAtStep(b64: string, i: nat, out: seq<Byte>)
    requires Aligned(b64, i) && i < |b64|
    ensures i + 4 <= |b64| && Aligned(b64, i + 4)
    ensures
      var a, b := DecodeBase64UrlChar(b64[i]), DecodeBase64UrlChar(b64[i + 1]);
      var c, d := TailValue(b64[i + 2]), TailValue(b64[i + 3]);
      if a < 0 || b < 0 || c < -1 || d < -1 then Chain(Some(out), LeftAt(b64, i)) == None
      else
        var octets := GroupOctets(Sextets(a, b, OrZero(c), OrZero(d)), b64[i + 2], b64[i + 3]);
        Chain(Some(out), LeftAt(b64, i)) == Chain(Some(out + octets), LeftAt(b64, i + 4))
  {
    hide DecodeChars, DecodeBase64UrlChar, GroupOctets, Sextets;
    assert b64[i..][4..] == b64[i + 4..];
    ChainIsAssociative(Some(out), DecodeGroup(AsWritten, b64[i..][..4]), DecodePadded(AsWritten, b64[i + 4..]));
    DecodesByGuard(b64[i], b64[i + 1], b64[i + 2], b64[i + 3]);
  }

  lemma ChainWithNothing(rest: Option<seq<Byte>>)
    ensures Chain(Some([]), rest) == rest
  {
    if rest.Some? {
      assert [] + rest.value == rest.value;
    }
  }

  lemma ChainIsAssociative(a: Option<seq<Byte>>, b: Option<seq<Byte>>, c: Option<seq<Byte>>)
    ensures Chain(a, Chain(b, c)) == Chain(Chain(a, b), c)
  {
    if a.Some? && b.Some? && c.Some? {
      assert a.value + (b.value + c.value) == a.value + b.value + c.value;
    }
  }
}
