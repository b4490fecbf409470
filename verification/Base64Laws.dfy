/** What the base64url codec promises. The decoder as written and the decoder with its padding guard
  * repaired are kept apart in every statement by the guard they name. */
module Base64Laws {
  import opened Wrappers
  import opened Base64Url

  // -------------------------------------------------------------------------------------------
  // Letters
  // -------------------------------------------------------------------------------------------

  lemma LetterIsItsValue(x: Sextet)
    ensures DecodeBase64UrlChar(Letter(x)) == x
    ensures Letter(x) != '='
  {
  }

  /** A letter's value is its place in the table, which is the alphabet of section 5 of RFC 4648; the
    * signs of the standard alphabet read like those of the URL alphabet. */
  lemma ValuesAreTheTable(x: Sextet)
    ensures TABLE == "ABCDEFGHIJKLMNOPQRSTUVWXYZ" + "abcdefghijklmnopqrstuvwxyz" + "0123456789" + "-_"
    ensures x < |TABLE| && DecodeBase64UrlChar(TABLE[x]) == x
    ensures DecodeBase64UrlChar('+') == 62 && DecodeBase64UrlChar('/') == 63
  {
    LetterIsInTheTable(x);
    LetterIsItsValue(x);
  }

  /** The URL alphabet. */
  predicate InAlphabet(ch: char) {
    'A' <= ch <= 'Z' || 'a' <= ch <= 'z' || '0' <= ch <= '9' || ch == '-' || ch == '_'
  }

  /** It is the set of characters in the encoder's table. */
  lemma AlphabetIsTheTable(ch: char)
    ensures InAlphabet(ch) <==> ch in TABLE
  {
    hide TABLE;
    if InAlphabet(ch) {
      var x: Sextet := DecodeBase64UrlChar(ch);
      LetterIsInTheTable(x);
    } else if ch in TABLE {
      TableHasAllSextets();
      var x: int :| 0 <= x < |TABLE| && TABLE[x] == ch;
      LetterIsInTheTable(x);
      assert false;
    }
  }

  predicate AllLetters(s: string) {
    forall i | 0 <= i < |s| :: InAlphabet(s[i])
  }

  lemma ValueIsItsLetter(ch: char)
    ensures InAlphabet(ch) <==> DecodeBase64UrlChar(ch) >= 0 && Letter(DecodeBase64UrlChar(ch)) == ch
    ensures InAlphabet(ch) ==> ch != '='
  {
  }

  lemma LetterIsInAlphabet(x: Sextet)
    ensures InAlphabet(Letter(x))
  {
  }

  // -------------------------------------------------------------------------------------------
  // One group
  // -------------------------------------------------------------------------------------------

  lemma SextetsRebuild(t: nat)
    requires t < 0x1000000
    ensures Sextet1(t) * 0x40000 + Sextet2(t) * 0x1000 + Sextet3(t) * 0x40 + Sextet4(t) == t
  {
    var c, d := t / 64, t % 64;
    var b := c / 64;
    var a := b / 64;
    GroupBits(a, b % 64, c % 64, d);
  }

  lemma DivisionIsUnique(t: nat, q: nat, r: nat)
    ensures t == q * 0x40000 + r && r < 0x40000 ==> t / 0x40000 == q
    ensures t == q * 0x1000 + r && r < 0x1000 ==> t / 0x1000 == q
    ensures t == q * 0x40 + r && r < 0x40 ==> t / 0x40 == q && t % 64 == r
  {
  }

  /** Four sextets read back from the 24 bits they make up. */
  lemma GroupBits(a: Sextet, b: Sextet, c: Sextet, d: Sextet)
    ensures
      var t := Sextets(a, b, c, d);
      && Sextet1(t) == a && Sextet2(t) == b && Sextet3(t) == c && Sextet4(t) == d
  {
    var t: nat := a * 0x40000 + b * 0x1000 + c * 0x40 + d;
    var high, middle := a * 64 + b, (a * 64 + b) * 64 + c;
    DivisionIsUnique(t, a, b * 0x1000 + c * 0x40 + d);
    DivisionIsUnique(t, high, c * 0x40 + d);
    DivisionIsUnique(t, middle, d);
    DivisionIsUnique(a, 0, a);
    DivisionIsUnique(high, a, b);
    DivisionIsUnique(middle, high, c);
  }

  lemma OctetDivision(t: nat, q: nat, r: nat)
    ensures t == q * 0x10000 + r && r < 0x10000 ==> t / 0x10000 == q
    ensures t == q * 0x100 + r && r < 0x100 ==> t / 0x100 == q && t % 256 == r
  {
  }

  lemma OctetsRebuild(a: Byte, b: Byte, c: Byte)
    ensures Octet1(Triple(a, b, c)) == a
    ensures Octet2(Triple(a, b, c)) == b
    ensures Octet3(Triple(a, b, c)) == c
  {
    var t, high := Triple(a, b, c), a * 0x100 + b;
    OctetDivision(t, a, b * 0x100 + c);
    OctetDivision(t, high, c);
    OctetDivision(high, a, b);
    OctetDivision(a, 0, a);
  }

  lemma ShortTriples(a: Byte, b: Byte)
    ensures Sextet4(Triple(a, b, 0)) == 0
    ensures Sextet3(Triple(a, 0, 0)) == 0
  {
    DivisionIsUnique(Triple(a, b, 0), a * 1024 + b * 4, 0);
    DivisionIsUnique(Triple(a, 0, 0), a * 1024, 0);
    DivisionIsUnique(a * 1024, a * 16, 0);
  }

  lemma {:induction false} PadAppends(group: string, s: string)
    requires |group| == 4
    ensures Pad(group + s) == group + Pad(s)
    decreases Missing(|s|)
  {
    hide Pad, Missing;
    OneLessMissing(|s|);
    OneLessMissing(|group + s|);
    if |s| % 4 != 0 {
      PadOneMore(s);
      PadOneMore(group + s);
      assert (group + s) + "=" == group + (s + "=");
      PadAppends(group, s + "=");
    }
  }

  lemma PadShort(s: string)
    requires 2 <= |s| <= 4
    ensures Pad(s) == s + (if |s| == 2 then "==" else if |s| == 3 then "=" else "")
  {
    hide Pad, Missing;
    if |s| == 2 {
      PadOneMore(s);
      PadOneMore(s + "=");
      assert s + "=" + "=" == s + "==";
    } else if |s| == 3 {
      PadOneMore(s);
    }
  }

  lemma LettersShape(t: nat, count: nat)
    requires 1 <= count <= 3
    ensures |Letters(t, count)| == count + 1
    ensures AllLetters(Letters(t, count))
  {
    LetterIsInAlphabet(Sextet1(t)); LetterIsInAlphabet(Sextet2(t));
    LetterIsInAlphabet(Sextet3(t)); LetterIsInAlphabet(Sextet4(t));
    hide Letter, Sextet1, Sextet2, Sextet3, Sextet4, InAlphabet;
  }

  /** The octets of the first `count` places of a triple. */
  function Octets(t: nat, count: nat): seq<Byte> {
    [Octet1(t)]
    + (if count > 1 then [Octet2(t)] else [])
    + (if count > 2 then [Octet3(t)] else [])
  }

  lemma DecodeLetters(guard: Guard, t: nat, count: nat)
    requires 1 <= count <= 3 && t < 0x1000000
    requires count < 3 ==> Sextet4(t) == 0
    requires count < 2 ==> Sextet3(t) == 0
    ensures
      var third := if count > 1 then Letter(Sextet3(t)) else '=';
      var fourth := if count > 2 then Letter(Sextet4(t)) else '=';
      DecodeChars(guard, Letter(Sextet1(t)), Letter(Sextet2(t)), third, fourth)
        == if count == 3 || guard == Repaired then Some(Octets(t, count)) else None
  {
    hide Sextet1, Sextet2, Sextet3, Sextet4, Octet1, Octet2, Octet3, Letter, DecodeBase64UrlChar;
    LetterIsItsValue(Sextet1(t)); LetterIsItsValue(Sextet2(t));
    LetterIsItsValue(Sextet3(t)); LetterIsItsValue(Sextet4(t));
    SextetsRebuild(t);
  }

  lemma PaddedLetters(t: nat, count: nat)
    requires 1 <= count <= 3
    ensures
      var third := if count > 1 then Letter(Sextet3(t)) else '=';
      var fourth := if count > 2 then Letter(Sextet4(t)) else '=';
      Pad(Letters(t, count)) == [Letter(Sextet1(t)), Letter(Sextet2(t)), third, fourth]
  {
    hide Sextet1, Sextet2, Sextet3, Sextet4, Letter, Pad;
    PadShort(Letters(t, count));
  }

  /** A full group comes back under either guard; a short one only under the repaired guard. */
  lemma GroupRoundTrip(guard: Guard, group: seq<Byte>)
    requires 1 <= |group| <= 3
    ensures |EncodeGroup(group)| == |group| + 1
    ensures AllLetters(EncodeGroup(group))
    ensures |Pad(EncodeGroup(group))| == 4
    ensures DecodeGroup(guard, Pad(EncodeGroup(group)))
         == if |group| == 3 || guard == Repaired then Some(group) else None
  {
    hide Sextet1, Sextet2, Sextet3, Sextet4, Octet1, Octet2, Octet3, Triple, Letters, Pad, DecodeChars, AllLetters,
        Letter;
    var b := if |group| > 1 then group[1] else 0;
    var c := if |group| > 2 then group[2] else 0;
    var t := Triple(group[0], b, c);
    OctetsRebuild(group[0], b, c);
    ShortTriples(group[0], b);
    LettersShape(t, |group|);
    PaddedLetters(t, |group|);
    DecodeLetters(guard, t, |group|);
    assert group == Octets(t, |group|);
  }

  // -------------------------------------------------------------------------------------------
  // Encode, then decode
  // -------------------------------------------------------------------------------------------

  /** Unpadded length ceil(4n/3), letters of the URL alphabet only. */
  lemma {:induction false} EncodeShape(data: seq<Byte>)
    ensures |Encode(data)| == (4 * |data| + 2) / 3
    ensures AllLetters(Encode(data))
    decreases |data|
  {
    if |data| > 0 {
      GroupRoundTrip(Repaired, Front(data));
      EncodeShape(Rest(data));
    }
  }

  lemma DecodeLastGroup(guard: Guard, data: seq<Byte>)
    requires 1 <= |data| <= 3
    ensures Decode(guard, Encode(data)) == if |data| == 3 || guard == Repaired then Some(data) else None
  {
    hide EncodeGroup, DecodeGroup, AllLetters, Pad;
    GroupRoundTrip(guard, data);
    assert Encode(data) == EncodeGroup(data) by {
      assert Front(data) == data && Encode(Rest(data)) == "";
    }
    var padded := Pad(EncodeGroup(data));
    assert padded[..4] == padded && padded[4..] == "";
    assert DecodePadded(guard, padded[4..]) == Some([]);
    assert data + [] == data;
  }

  lemma DecodeFirstGroup(guard: Guard, group: seq<Byte>, s: string)
    requires |group| == 3
    ensures Decode(guard, EncodeGroup(group) + s) == Chain(Some(group), Decode(guard, s))
  {
    hide EncodeGroup, DecodeGroup, AllLetters, Pad;
    var letters := EncodeGroup(group);
    GroupRoundTrip(guard, group);
    PadAppends(letters, s);
    var padded := Pad(letters + s);
    assert padded[..4] == letters && padded[4..] == Pad(s);
    assert Pad(letters) == letters;
  }

  /** The decoder as written gives back data of whole groups and rejects the encoding of anything
    * else; the repaired decoder gives back everything. */
  lemma {:induction false} DecodeAfterEncode(guard: Guard, data: seq<Byte>)
    ensures Decode(guard, Encode(data)) == if |data| % 3 == 0 || guard == Repaired then Some(data) else None
    decreases |data|
  {
    hide EncodeGroup, Pad, DecodePadded;
    if |data| == 0 {
      DecodeNothing(guard);
    } else if |data| <= 3 {
      DecodeLastGroup(guard, data);
    } else {
      DecodeFirstGroup(guard, Front(data), Encode(Rest(data)));
      DecodeAfterEncode(guard, Rest(data));
      assert Front(data) + Rest(data) == data;
    }
  }

  lemma DecodeNothing(guard: Guard)
    ensures Decode(guard, "") == Some([])
  {
  }

  lemma EncodeIsInjective(x: seq<Byte>, y: seq<Byte>)
    requires Encode(x) == Encode(y)
    ensures x == y
  {
    DecodeAfterEncode(Repaired, x);
    DecodeAfterEncode(Repaired, y);
  }

  // -------------------------------------------------------------------------------------------
  // Decode, then encode
  // -------------------------------------------------------------------------------------------

  lemma EncodeOctets(a: Sextet, b: Sextet, c: Sextet, d: Sextet, t: nat)
    requires t == Sextets(a, b, c, d)
    ensures EncodeGroup([Octet1(t), Octet2(t), Octet3(t)])
         == [Letter(a), Letter(b), Letter(c), Letter(d)]
  {
    hide Sextet1, Sextet2, Sextet3, Sextet4, Octet1, Octet2, Octet3, Triple, Letter;
    GroupBits(a, b, c, d);
    OctetsOf(t);
  }

  /** What a group without padding signs decodes to, an invalid third or fourth place read as zero
    * where the guard lets it pass. */
  lemma GroupDecodes(guard: Guard, p: char, q: char, r: char, s: char)
    requires r != '=' && s != '='
    ensures
      var a, b, c, d := DecodeBase64UrlChar(p), DecodeBase64UrlChar(q), DecodeBase64UrlChar(r), DecodeBase64UrlChar(s);
      match DecodeChars(guard, p, q, r, s)
      case None => a < 0 || b < 0 || (guard == Repaired && (c < 0 || d < 0))
      case Some(octets) =>
        && a >= 0 && b >= 0 && (guard == Repaired ==> c >= 0 && d >= 0)
        && |octets| == 3
        && EncodeGroup(octets) == [Letter(a), Letter(b), Letter(OrZero(c)), Letter(OrZero(d))]
  {
    hide Octet1, Octet2, Octet3, Letter, DecodeBase64UrlChar, EncodeGroup;
    var a, b := OrZero(DecodeBase64UrlChar(p)), OrZero(DecodeBase64UrlChar(q));
    var c, d := OrZero(DecodeBase64UrlChar(r)), OrZero(DecodeBase64UrlChar(s));
    var t := Sextets(a, b, c, d);
    EncodeOctets(a, b, c, d, t);
    assert GroupOctets(t, r, s) == [Octet1(t), Octet2(t), Octet3(t)];
  }

  /** A place keeps its character exactly when it is a letter. */
  lemma PlaceBack(ch: char)
    ensures InAlphabet(ch) <==> Letter(OrZero(DecodeBase64UrlChar(ch))) == ch
    ensures InAlphabet(ch) ==> DecodeBase64UrlChar(ch) >= 0
  {
    ValueIsItsLetter(ch);
    LetterIsInAlphabet(OrZero(DecodeBase64UrlChar(ch)));
    hide Letter, InAlphabet;
  }

  /** A group without padding signs survives decoding and encoding exactly when all are letters. */
  lemma GroupBack(guard: Guard, s: string)
    requires |s| == 4 && s[2] != '=' && s[3] != '='
    ensures DecodeGroup(guard, s).Some? ==> |DecodeGroup(guard, s).value| == 3
    ensures DecodeGroup(guard, s).Some? && EncodeGroup(DecodeGroup(guard, s).value) == s <==> AllLetters(s)
  {
    hide Letter, DecodeBase64UrlChar, InAlphabet, EncodeGroup, DecodeChars;
    GroupDecodes(guard, s[0], s[1], s[2], s[3]);
    PlaceBack(s[0]); PlaceBack(s[1]); PlaceBack(s[2]); PlaceBack(s[3]);
    assert s == [s[0], s[1], s[2], s[3]];
  }

  lemma OctetsOf(t: nat)
    requires t < 0x1000000
    ensures Triple(Octet1(t), Octet2(t), Octet3(t)) == t
  {
    var q, low := t / 0x100, t % 0x100;
    var high, middle := q / 0x100, q % 0x100;
    OctetDivision(t, q, low);
    OctetDivision(q, high, middle);
    OctetDivision(t, high, middle * 0x100 + low);
    OctetDivision(high, 0, high);
  }

  lemma EncodeWholeGroup(group: seq<Byte>, rest: seq<Byte>)
    requires |group| == 3
    ensures Encode(group + rest) == EncodeGroup(group) + Encode(rest)
  {
    hide EncodeGroup;
    var data := group + rest;
    assert Front(data) == group;
    assert Rest(data) == rest;
  }

  /** What the decoder as written lets through once the input is padded. */
  predicate LooksDecodable(s: string) {
    forall k | 0 <= k < |s| :: s[k] != '=' && (k % 4 < 2 ==> HasValue(s[k]))
  }

  /** The characters of either base64 alphabet. */
  predicate HasValue(ch: char) {
    InAlphabet(ch) || ch == '+' || ch == '/'
  }

  lemma HasValueExactly(ch: char)
    ensures HasValue(ch) <==> DecodeBase64UrlChar(ch) >= 0
  {
  }

  lemma {:induction false} PaddedAcceptance(s: string)
    requires |s| % 4 == 0
    ensures DecodePadded(AsWritten, s).Some? <==> LooksDecodable(s)
    decreases |s|
  {
    hide DecodeChars, HasValue;
    if |s| > 0 {
      PaddedAcceptance(s[4..]);
      GroupAcceptance(s[0], s[1], s[2], s[3]);
      LooksSplit(s);
    }
  }

  lemma LooksSplit(s: string)
    requires |s| >= 4
    ensures LooksDecodable(s) <==>
      && s[0] != '=' && s[1] != '=' && s[2] != '=' && s[3] != '=' && HasValue(s[0]) && HasValue(s[1])
      && LooksDecodable(s[4..])
  {
    hide HasValue;
    if LooksDecodable(s) {
      forall k | 0 <= k < |s| - 4
        ensures s[4..][k] != '=' && (k % 4 < 2 ==> HasValue(s[4..][k]))
      {
        assert s[4..][k] == s[k + 4];
      }
    } else {
      var k :| 0 <= k < |s| && !(s[k] != '=' && (k % 4 < 2 ==> HasValue(s[k])));
      if k >= 4 {
        assert s[4..][k - 4] == s[k];
      }
    }
  }

  lemma GroupAcceptance(p: char, q: char, r: char, s: char)
    ensures DecodeChars(AsWritten, p, q, r, s).Some? <==>
      p != '=' && q != '=' && r != '=' && s != '=' && HasValue(p) && HasValue(q)
  {
    HasValueExactly(p);
    HasValueExactly(q);
  }

  lemma {:induction false} PaddingEndsTheInput(s: string)
    requires |s| % 4 != 0
    ensures |Pad(s)| > 0 && Pad(s)[|Pad(s)| - 1] == '='
    decreases (4 - |s| % 4) % 4
  {
    if |s| % 4 != 3 {
      PaddingEndsTheInput(s + "=");
    } else {
      assert Pad(s) == Pad(s + "=") == s + "=";
    }
  }

  /** The decoder as written accepts exactly the inputs of whole groups without a padding sign whose
    * first two places of every group are valid; the other two may hold anything. */
  lemma AcceptsExactly(s: string)
    ensures Decode(AsWritten, s).Some? <==> |s| % 4 == 0 && LooksDecodable(s)
  {
    PaddedAcceptance(Pad(s));
    if |s| % 4 != 0 {
      PaddingEndsTheInput(s);
    }
  }

  lemma ZeroOctets()
    ensures GroupOctets(0, 'A', 'A') == [0, 0, 0] && GroupOctets(0, '!', '*') == [0, 0, 0]
    ensures Sextets(0, 0, 0, 0) == 0
  {
  }

  lemma ZeroGroup()
    ensures DecodeChars(AsWritten, 'A', 'A', 'A', 'A') == Some([0, 0, 0])
    ensures DecodeChars(AsWritten, 'A', 'A', '!', '*') == Some([0, 0, 0])
    ensures DecodeChars(Repaired, 'A', 'A', '!', '*') == None
  {
    hide GroupOctets, Sextets;
    ZeroOctets();
  }

  lemma OneGroup(guard: Guard, s: string)
    requires |s| == 4
    ensures Decode(guard, s) == DecodeGroup(guard, s)
  {
    hide DecodeGroup;
    assert s[..4] == s && s[4..] == "";
    assert DecodePadded(guard, s[4..]) == Some([]);
    var group := DecodeGroup(guard, s);
    if group.Some? {
      assert group.value + [] == group.value;
    }
  }

  /** For instance it reads two invalid characters as zero bits. */
  lemma InvalidCharactersPass()
    ensures Decode(AsWritten, "AA!*") == Decode(AsWritten, "AAAA") == Some([0, 0, 0])
    ensures Decode(Repaired, "AA!*") == None
  {
    hide Decode;
    ZeroGroup();
    OneGroup(AsWritten, "AA!*");
    OneGroup(AsWritten, "AAAA");
    OneGroup(Repaired, "AA!*");
  }

  /** What the decoder as written reads a character as: a letter, the letter of a standard sign, or zero bits. */
  function PlainChar(ch: char): char {
    if InAlphabet(ch) then ch else if ch == '+' then '-' else if ch == '/' then '_' else 'A'
  }

  function Plain(s: string): string {
    if |s| == 0 then "" else [PlainChar(s[0])] + Plain(s[1..])
  }

  lemma {:induction false} PlainAt(s: string)
    ensures |Plain(s)| == |s|
    ensures forall i | 0 <= i < |s| :: Plain(s)[i] == PlainChar(s[i])
  {
    hide PlainChar;
    if |s| > 0 {
      PlainAt(s[1..]);
    }
  }

  lemma ReadAsPlain(ch: char)
    requires ch != '='
    ensures Letter(OrZero(DecodeBase64UrlChar(ch))) == PlainChar(ch)
  {
    ValueIsItsLetter(ch);
  }

  lemma PlainFirst(s: string, i: nat)
    requires i < |s|
    ensures Plain(s[i..]) == [PlainChar(s[i])] + Plain(s[i + 1..])
  {
    hide PlainChar;
    assert s[i..][1..] == s[i + 1..] && s[i..][0] == s[i];
  }

  lemma TwoInFront(p: char, q: char, front: string, rest: string, whole: string)
    requires whole == [p] + rest && rest == [q] + front
    ensures whole == [p, q] + front
  {
  }

  lemma PlainTwo(s: string, i: nat)
    requires i + 2 <= |s|
    ensures Plain(s[i..]) == [PlainChar(s[i]), PlainChar(s[i + 1])] + Plain(s[i + 2..])
  {
    PlainFirst(s, i);
    PlainFirst(s, i + 1);
    hide *;
    TwoInFront(PlainChar(s[i]), PlainChar(s[i + 1]), Plain(s[i + 2..]), Plain(s[i + 1..]), Plain(s[i..]));
  }

  lemma FourInFront(p: char, q: char, r: char, s: char, front: string, rest: string, whole: string)
    requires whole == [p, q] + rest && rest == [r, s] + front
    ensures whole == [p, q, r, s] + front
  {
  }

  lemma PlainSplit(s: string)
    requires |s| >= 4
    ensures Plain(s) == [PlainChar(s[0]), PlainChar(s[1]), PlainChar(s[2]), PlainChar(s[3])] + Plain(s[4..])
  {
    hide *;
    assert s[0..] == s;
    PlainTwo(s, 0);
    PlainTwo(s, 2);
    FourInFront(PlainChar(s[0]), PlainChar(s[1]), PlainChar(s[2]), PlainChar(s[3]), Plain(s[4..]), Plain(s[2..]),
      Plain(s));
  }

  lemma {:induction false} PaddedPlain(s: string)
    requires |s| % 4 == 0 && LooksDecodable(s)
    ensures DecodePadded(AsWritten, s).Some? && Encode(DecodePadded(AsWritten, s).value) == Plain(s)
    decreases |s|
  {
    hide DecodeChars, EncodeGroup, PlainChar, HasValue, Letter, DecodeBase64UrlChar;
    PaddedAcceptance(s);
    if |s| > 0 {
      LooksSplit(s);
      GroupAcceptance(s[0], s[1], s[2], s[3]);
      GroupDecodes(AsWritten, s[0], s[1], s[2], s[3]);
      ReadAsPlain(s[0]); ReadAsPlain(s[1]); ReadAsPlain(s[2]); ReadAsPlain(s[3]);
      PaddedPlain(s[4..]);
      PlainSplit(s);
      EncodeWholeGroup(DecodeGroup(AsWritten, s[..4]).value, DecodePadded(AsWritten, s[4..]).value);
    }
  }

  /** An accepted input is decoded, as written, to the data whose encoding is its plain form. */
  lemma DecodesToPlain(s: string)
    requires Decode(AsWritten, s).Some?
    ensures Encode(Decode(AsWritten, s).value) == Plain(s)
  {
    AcceptsExactly(s);
    PaddedPlain(s);
  }

  lemma PlainExactly(s: string)
    ensures Plain(s) == s <==> AllLetters(s)
    ensures |s| % 4 == 0 && AllLetters(s) ==> LooksDecodable(s)
  {
    PlainAt(s);
    if AllLetters(s) {
      assert Plain(s) == s;
    } else {
      var i :| 0 <= i < |s| && !InAlphabet(s[i]);
      assert Plain(s)[i] != s[i];
    }
  }

  /** Decoding as written and encoding again gives back exactly the strings of whole groups over the
    * URL alphabet. */
  lemma EncodeAfterDecode(s: string)
    ensures Decode(AsWritten, s).Some? && Encode(Decode(AsWritten, s).value) == s <==>
      |s| % 4 == 0 && AllLetters(s)
  {
    AcceptsExactly(s);
    PlainExactly(s);
    if Decode(AsWritten, s).Some? {
      DecodesToPlain(s);
    }
  }

  // -------------------------------------------------------------------------------------------
  // The standard alphabet's signs
  // -------------------------------------------------------------------------------------------

  function Url(s: string): (r: string)
    ensures |r| == |s|
    ensures forall i | 0 <= i < |s| :: r[i] == if s[i] == '+' then '-' else if s[i] == '/' then '_' else s[i]
  {
    if |s| == 0 then ""
    else [if s[0] == '+' then '-' else if s[0] == '/' then '_' else s[0]] + Url(s[1..])
  }

  lemma SignsAreRead(ch: char)
    ensures
      var url := if ch == '+' then '-' else if ch == '/' then '_' else ch;
      DecodeBase64UrlChar(url) == DecodeBase64UrlChar(ch) && (url == '=' <==> ch == '=')
  {
  }

  lemma GroupSignsDecodeAlike(guard: Guard, s: string, url: string)
    requires |s| == 4 && |url| == 4
    requires forall i | 0 <= i < 4 :: url[i] == if s[i] == '+' then '-' else if s[i] == '/' then '_' else s[i]
    ensures DecodeGroup(guard, url) == DecodeGroup(guard, s)
  {
    hide DecodeBase64UrlChar, Octet1, Octet2, Octet3, Sextets;
    SignsAreRead(s[0]); SignsAreRead(s[1]); SignsAreRead(s[2]); SignsAreRead(s[3]);
  }

  lemma UrlSplit(s: string)
    requires |s| >= 4
    ensures Url(s)[4..] == Url(s[4..])
    ensures forall i | 0 <= i < 4 ::
              Url(s)[..4][i] == if s[..4][i] == '+' then '-' else if s[..4][i] == '/' then '_' else s[..4][i]
  {
    hide Url;
  }

  lemma {:induction false} PaddedSignsDecodeAlike(guard: Guard, s: string)
    requires |s| % 4 == 0
    ensures DecodePadded(guard, Url(s)) == DecodePadded(guard, s)
    decreases |s|
  {
    hide Url, DecodeGroup;
    if |s| == 0 {
      assert Url(s) == s;
    } else {
      UrlSplit(s);
      GroupSignsDecodeAlike(guard, s[..4], Url(s)[..4]);
      PaddedSignsDecodeAlike(guard, s[4..]);
    }
  }

  lemma {:induction false} PadKeepsSigns(s: string)
    ensures Pad(Url(s)) == Url(Pad(s))
    decreases Missing(|s|)
  {
    OneLessMissing(|s|);
    if |s| % 4 != 0 {
      assert Url(s) + "=" == Url(s + "=");
      PadKeepsSigns(s + "=");
    }
  }

  /** '+' and '/' decode like '-' and '_' everywhere, under either guard. */
  lemma SignsDecodeAlike(guard: Guard, s: string)
    ensures Decode(guard, Url(s)) == Decode(guard, s)
  {
    PadKeepsSigns(s);
    PaddedSignsDecodeAlike(guard, Pad(s));
  }

  // -------------------------------------------------------------------------------------------
  // An encoding is its data in base 64
  // -------------------------------------------------------------------------------------------

  /** The letters read as digits to the base 64, after what was read before. */
  function ReadLetters(before: int, s: string): int
    decreases |s|
  {
    if |s| == 0 then before else ReadLetters(before * 64 + DecodeBase64UrlChar(s[0]), s[1..])
  }

  /** The octets read as digits to the base 256. */
  function ReadOctets(before: int, data: seq<Byte>): int
    decreases |data|
  {
    if |data| == 0 then before else ReadOctets(before * 256 + data[0], data[1..])
  }

  lemma {:induction false} ReadLettersAppends(before: int, s: string, t: string)
    ensures ReadLetters(before, s + t) == ReadLetters(ReadLetters(before, s), t)
    decreases |s|
  {
    hide DecodeBase64UrlChar;
    if |s| == 0 {
      assert s + t == t;
    } else {
      assert (s + t)[1..] == s[1..] + t;
      ReadLettersAppends(before * 64 + DecodeBase64UrlChar(s[0]), s[1..], t);
    }
  }

  lemma ReadOne(before: int, x: Sextet, s: string)
    ensures ReadLetters(before, [Letter(x)] + s) == ReadLetters(before * 64 + x, s)
  {
    LetterIsItsValue(x);
    hide Letter, DecodeBase64UrlChar;
    assert ([Letter(x)] + s)[1..] == s;
  }

  /** Two, three or four letters, each read in turn. */
  lemma ReadUpToFour(before: int, a: Sextet, b: Sextet, c: Sextet, d: Sextet)
    ensures
      var two := (before * 64 + a) * 64 + b;
      && ReadLetters(before, [Letter(a), Letter(b)]) == two
      && ReadLetters(before, [Letter(a), Letter(b), Letter(c)]) == two * 64 + c
      && ReadLetters(before, [Letter(a), Letter(b), Letter(c), Letter(d)]) == (two * 64 + c) * 64 + d
  {
    var one := before * 64 + a;
    var two := one * 64 + b;
    ReadNothing(two); ReadNothing(two * 64 + c); ReadNothing((two * 64 + c) * 64 + d);
    ReadOne((two * 64 + c), d, ""); ReadOne(two, c, ""); ReadOne(two, c, [Letter(d)]);
    ReadOne(one, b, ""); ReadOne(one, b, [Letter(c)]); ReadOne(one, b, [Letter(c), Letter(d)]);
    ReadOne(before, a, [Letter(b)]); ReadOne(before, a, [Letter(b), Letter(c)]);
    ReadOne(before, a, [Letter(b), Letter(c), Letter(d)]);
    hide *;
    assert [Letter(d)] + "" == [Letter(d)] && [Letter(c)] + "" == [Letter(c)] && [Letter(b)] + "" == [Letter(b)];
    assert [Letter(c)] + [Letter(d)] == [Letter(c), Letter(d)];
    assert [Letter(b)] + [Letter(c)] == [Letter(b), Letter(c)];
    assert [Letter(b)] + [Letter(c), Letter(d)] == [Letter(b), Letter(c), Letter(d)];
    assert [Letter(a)] + [Letter(b)] == [Letter(a), Letter(b)];
    assert [Letter(a)] + [Letter(b), Letter(c)] == [Letter(a), Letter(b), Letter(c)];
    assert [Letter(a)] + [Letter(b), Letter(c), Letter(d)] == [Letter(a), Letter(b), Letter(c), Letter(d)];
  }

  /** The zero bits that fill up the last letter. */
  function Filled(n: nat): nat {
    if n % 3 == 0 then 1 else if n % 3 == 1 then 16 else 4
  }

  lemma ReadGroup(before: int, group: seq<Byte>)
    requires 1 <= |group| <= 3
    ensures ReadLetters(before, EncodeGroup(group)) == ReadOctets(before, group) * Filled(|group|)
  {
    hide Letter, Sextet1, Sextet2, Sextet3, Sextet4, DecodeBase64UrlChar, ReadLetters, ReadOctets, Triple;
    var b := if |group| > 1 then group[1] else 0;
    var c := if |group| > 2 then group[2] else 0;
    var t := Triple(group[0], b, c);
    ReadUpToFour(before, Sextet1(t), Sextet2(t), Sextet3(t), Sextet4(t));
    ReadUpToThree(before, group);
    SextetsOfTriple(group[0], b, c);
    var two := [Letter(Sextet1(t)), Letter(Sextet2(t))];
    assert EncodeGroup(group) ==
      if |group| == 1 then two
      else if |group| == 2 then two + [Letter(Sextet3(t))]
      else two + [Letter(Sextet3(t))] + [Letter(Sextet4(t))];
    assert two + [Letter(Sextet3(t))] == [Letter(Sextet1(t)), Letter(Sextet2(t)), Letter(Sextet3(t))];
    assert two + [Letter(Sextet3(t))] + [Letter(Sextet4(t))]
        == [Letter(Sextet1(t)), Letter(Sextet2(t)), Letter(Sextet3(t)), Letter(Sextet4(t))];
  }

  lemma SextetsOfTriple(a: Byte, b: Byte, c: Byte)
    ensures
      var t, number := Triple(a, b, c), (a as int * 256 + b) * 256 + c;
      && ((Sextet1(t) as int * 64 + Sextet2(t)) * 64 + Sextet3(t)) * 64 + Sextet4(t) == number
      && (c == 0 ==> Sextet4(t) == 0)
      && (b == 0 && c == 0 ==> Sextet3(t) == 0)
  {
    SextetsRebuild(Triple(a, b, c));
    ShortTriples(a, b);
    hide Sextet1, Sextet2, Sextet3, Sextet4;
  }

  lemma ReadUpToThree(before: int, group: seq<Byte>)
    requires 1 <= |group| <= 3
    ensures ReadOctets(before, group) ==
      if |group| == 1 then before * 256 + group[0]
      else if |group| == 2 then (before * 256 + group[0]) * 256 + group[1]
      else ((before * 256 + group[0]) * 256 + group[1]) * 256 + group[2]
  {
    var one := before * 256 + group[0];
    assert ReadOctets(before, group) == ReadOctets(one, group[1..]);
    if |group| > 1 {
      var two := one * 256 + group[1];
      assert group[1..][0] == group[1] && ReadOctets(one, group[1..]) == ReadOctets(two, group[1..][1..]);
      assert |group| > 2 ==> group[1..][1..][0] == group[2] && |group[1..][1..][1..]| == 0;
    }
  }

  lemma {:induction false} ReadOctetsAppends(before: int, x: seq<Byte>, y: seq<Byte>)
    ensures ReadOctets(before, x + y) == ReadOctets(ReadOctets(before, x), y)
    decreases |x|
  {
    if |x| == 0 {
      assert x + y == y;
    } else {
      assert (x + y)[1..] == x[1..] + y;
      ReadOctetsAppends(before * 256 + x[0], x[1..], y);
    }
  }

  /** Read as a number to the base 64 an encoding is its data read to the base 256, followed by two or
    * four zero bits if the last group is short. */
  lemma {:induction false} EncodingIsTheNumber(before: int, data: seq<Byte>)
    ensures ReadLetters(before, Encode(data)) == ReadOctets(before, data) * Filled(|data|)
    decreases |data|
  {
    hide EncodeGroup, ReadLetters, ReadOctets, DecodeBase64UrlChar;
    if |data| == 0 {
      ReadNothing(before);
    } else {
      var front, rest := Front(data), Rest(data);
      ReadGroup(before, front);
      assert data == front + rest;
      ReadLettersAppends(before, EncodeGroup(front), Encode(rest));
      ReadOctetsAppends(before, front, rest);
      EncodingIsTheNumber(ReadOctets(before, front), rest);
      ReadNothing(ReadOctets(before, front) * Filled(|front|));
      assert |rest| > 0 ==> |front| == 3;
    }
  }

  lemma ReadNothing(before: int)
    ensures ReadLetters(before, "") == before && ReadOctets(before, []) == before && Encode([]) == ""
  {
  }

  // -------------------------------------------------------------------------------------------
  // The canonical strings
  // -------------------------------------------------------------------------------------------

  lemma LettersSplit(s: string)
    requires |s| >= 4 && AllLetters(s)
    ensures AllLetters(s[..4]) && AllLetters(s[4..])
    ensures s[2] != '=' && s[3] != '='
  {
    ValueIsItsLetter(s[2]);
    ValueIsItsLetter(s[3]);
    hide InAlphabet;
  }

  lemma NothingComesBack()
    ensures DecodePadded(AsWritten, "") == Some([]) && Encode([]) == ""
  {
  }

  lemma PrependEncoded(s: string, group: seq<Byte>, rest: seq<Byte>)
    requires |s| >= 4 && |group| == 3 && EncodeGroup(group) == s[..4] && Encode(rest) == s[4..]
    ensures Encode(group + rest) == s
  {
    hide *;
    EncodeWholeGroup(group, rest);
    assert s == s[..4] + s[4..];
  }

  /** Letters only, no single letter left over, and no stray bits in the last letter of a short group. */
  predicate Canonical(s: string) {
    && AllLetters(s)
    && |s| % 4 != 1
    && (|s| % 4 == 2 ==> DecodeBase64UrlChar(s[|s| - 1]) % 16 == 0)
    && (|s| % 4 == 3 ==> DecodeBase64UrlChar(s[|s| - 1]) % 4 == 0)
  }

  lemma LettersEnd(t: nat, count: nat)
    requires 1 <= count <= 3
    requires count == 1 ==> Sextet2(t) % 16 == 0
    requires count == 2 ==> Sextet3(t) % 4 == 0
    ensures Canonical(Letters(t, count))
  {
    hide Letter, AllLetters, DecodeBase64UrlChar, Sextet1, Sextet2, Sextet3, Sextet4;
    LettersShape(t, count);
    LetterIsItsValue(Sextet2(t));
    LetterIsItsValue(Sextet3(t));
  }

  lemma TailBitsAreZero(a: Byte, b: Byte)
    ensures Sextet2(Triple(a, 0, 0)) % 16 == 0
    ensures Sextet3(Triple(a, b, 0)) % 4 == 0
  {
    hide Sextet1, Sextet2, Sextet3, Sextet4, Triple;
    TailBits(a / 4, a % 4, b / 16, b % 16);
  }

  /** The same for octets given by their upper and lower parts. */
  lemma TailBits(highA: nat, lowA: nat, highB: nat, lowB: nat)
    requires highA < 64 && lowA < 4 && highB < 16 && lowB < 16
    ensures Sextet2(Triple(highA * 4 + lowA, 0, 0)) % 16 == 0
    ensures Sextet3(Triple(highA * 4 + lowA, highB * 16 + lowB, 0)) % 4 == 0
  {
    hide Sextet1, Sextet2, Sextet3, Sextet4;
    GroupBits(highA, lowA * 16, 0, 0);
    GroupBits(highA, lowA * 16 + highB, lowB * 4, 0);
  }

  lemma GroupIsCanonical(group: seq<Byte>)
    requires 1 <= |group| <= 3
    ensures Canonical(EncodeGroup(group))
  {
    var b := if |group| > 1 then group[1] else 0;
    var c := if |group| > 2 then group[2] else 0;
    TailBitsAreZero(group[0], b);
    hide Letters, Canonical, Sextet1, Sextet2, Sextet3, Sextet4, Triple;
    LettersEnd(Triple(group[0], b, c), |group|);
  }

  lemma CanonicalJoin(first: string, s: string)
    requires |first| == 4 && AllLetters(first) && Canonical(s)
    ensures Canonical(first + s)
  {
    hide InAlphabet, DecodeBase64UrlChar;
  }

  lemma CanonicalSplit(s: string)
    requires |s| >= 4 && Canonical(s)
    ensures Canonical(s[4..]) && AllLetters(s[..4])
    ensures s[2] != '=' && s[3] != '='
  {
    hide AllLetters, DecodeBase64UrlChar, InAlphabet;
    LettersSplit(s);
  }

  lemma {:induction false} EncodingsAreCanonical(data: seq<Byte>)
    ensures Canonical(Encode(data))
    decreases |data|
  {
    if |data| > 0 {
      GroupIsCanonical(Front(data));
      EncodingsAreCanonical(Rest(data));
      hide EncodeGroup, DecodeGroup, Canonical, AllLetters;
      if |data| <= 3 {
        assert Encode(data) == EncodeGroup(data);
      } else {
        GroupRoundTrip(Repaired, Front(data));
        CanonicalJoin(EncodeGroup(Front(data)), Encode(Rest(data)));
      }
    }
  }

  lemma ShortGroupBits(a: Sextet, b: Sextet, c: Sextet)
    ensures b % 16 == 0 ==> Sextet1(Triple(a * 4 + b / 16, 0, 0)) == a
    ensures b % 16 == 0 ==> Sextet2(Triple(a * 4 + b / 16, 0, 0)) == b
    ensures c % 4 == 0 ==> Sextet1(Triple(a * 4 + b / 16, b % 16 * 16 + c / 4, 0)) == a
    ensures c % 4 == 0 ==> Sextet2(Triple(a * 4 + b / 16, b % 16 * 16 + c / 4, 0)) == b
    ensures c % 4 == 0 ==> Sextet3(Triple(a * 4 + b / 16, b % 16 * 16 + c / 4, 0)) == c
  {
    hide Sextet1, Sextet2, Sextet3, Sextet4, Triple;
    ShortBits(a, b / 16, b % 16, c / 4);
  }

  /** The same for sextets given by their upper and lower parts. */
  lemma ShortBits(a: Sextet, highB: nat, lowB: nat, highC: nat)
    requires highB < 4 && lowB < 16 && highC < 16
    ensures Sextet1(Triple(a * 4 + highB, 0, 0)) == a
    ensures Sextet2(Triple(a * 4 + highB, 0, 0)) == highB * 16
    ensures Sextet1(Triple(a * 4 + highB, lowB * 16 + highC, 0)) == a
    ensures Sextet2(Triple(a * 4 + highB, lowB * 16 + highC, 0)) == highB * 16 + lowB
    ensures Sextet3(Triple(a * 4 + highB, lowB * 16 + highC, 0)) == highC * 4
  {
    hide Sextet1, Sextet2, Sextet3, Sextet4;
    GroupBits(a, highB * 16, 0, 0);
    GroupBits(a, highB * 16 + lowB, highC * 4, 0);
  }

  lemma ShortGroupExists(s: string) returns (group: seq<Byte>)
    requires 2 <= |s| <= 3 && Canonical(s)
    ensures 1 <= |group| <= 2 && EncodeGroup(group) == s
  {
    hide Letter, Sextet1, Sextet2, Sextet3, Sextet4, Triple, DecodeBase64UrlChar, InAlphabet;
    ValueIsItsLetter(s[0]); ValueIsItsLetter(s[1]); ValueIsItsLetter(s[|s| - 1]);
    var a: int, b: int, c: int := DecodeBase64UrlChar(s[0]), DecodeBase64UrlChar(s[1]), DecodeBase64UrlChar(s[|s| - 1]);
    ShortGroupBits(a, b, c);
    if |s| == 2 {
      group := [a * 4 + b / 16];
      assert s == [s[0], s[1]];
    } else {
      group := [a * 4 + b / 16, b % 16 * 16 + c / 4];
      assert s == [s[0], s[1], s[2]];
    }
  }

  lemma EncodeShortGroup(group: seq<Byte>)
    requires 1 <= |group| <= 3
    ensures Encode(group) == EncodeGroup(group)
  {
    hide EncodeGroup;
    assert Front(group) == group && Encode(Rest(group)) == "";
  }

  lemma {:induction false} CanonicalIsAnEncoding(s: string) returns (data: seq<Byte>)
    requires Canonical(s)
    ensures Encode(data) == s
    decreases |s|
  {
    hide EncodeGroup, DecodeGroup, DecodeBase64UrlChar, AllLetters, Encode;
    if |s| == 0 {
      data := [];
      NothingComesBack();
      assert s == "";
    } else if |s| < 4 {
      data := ShortGroupExists(s);
      EncodeShortGroup(data);
    } else {
      CanonicalSplit(s);
      GroupBack(AsWritten, s[..4]);
      var rest := CanonicalIsAnEncoding(s[4..]);
      var group := DecodeGroup(AsWritten, s[..4]).value;
      PrependEncoded(s, group, rest);
      data := group + rest;
    }
  }

  /** With the guard repaired, decoding and encoding again gives back exactly the canonical strings,
    * and those are exactly the encodings: the encoder is a bijection onto them. */
  lemma RepairedEncodeAfterDecode(s: string)
    ensures Decode(Repaired, s).Some? && Encode(Decode(Repaired, s).value) == s <==> Canonical(s)
  {
    if Canonical(s) {
      var data := CanonicalIsAnEncoding(s);
      DecodeAfterEncode(Repaired, data);
    } else if Decode(Repaired, s).Some? {
      EncodingsAreCanonical(Decode(Repaired, s).value);
    }
  }
}
