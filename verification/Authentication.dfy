/** The token check of the gateway. The HMAC, the JSON parser and the clock belong to the world;
  * splitting the token, the signature comparison and the claim checks are modelled branch by branch. */
module Authentication {
  import opened Wrappers
  import opened Base64Url
  import Base64Laws
  import Decimal

  datatype Json =
    | JString(text: string)
    | JInteger(number: int)
    | JArray(items: seq<Json>)
    | JObject(members: map<string, Json>)
    | JOther

  datatype AuthOptions = AuthOptions(
    jwtSecret: string, jwtIssuer: string, jwtAudience: string, allowLegacyToken: bool)

  datatype World = World(
    parse: seq<Byte> -> Option<Json>, hmac: (string, string) -> seq<Byte>, now: int)

  /** A token is granted a user, denied, or the JSON library throws because a member that must be
    * text has another type. */
  datatype Verdict = Granted(userId: string) | Denied | Thrown

  type Members = map<string, Json>

  /** The position of the first dot at or after `from`. */
  function FindDot(s: string, from: nat): (r: Option<nat>)
    ensures r.Some? ==> from <= r.value < |s| && s[r.value] == '.' && forall k | from <= k < r.value :: s[k] != '.'
    ensures r.None? ==> forall k | from <= k < |s| :: s[k] != '.'
    decreases |s| - from
  {
    if from >= |s| then None
    else if s[from] == '.' then Some(from)
    else FindDot(s, from + 1)
  }

  datatype Parts = Parts(header: string, payload: string, signature: string)

  function Split(s: string): Option<Parts> {
    match FindDot(s, 0)
    case None => None
    case Some(first) =>
      match FindDot(s, first + 1)
      case None => None
      case Some(second) =>
        if FindDot(s, second + 1).Some? then None
        else Some(Parts(s[..first], s[first + 1..second], s[second + 1..]))
  }

  function DecodeJwtJsonPart(world: World, part: string): Option<Members> {
    match Decode(AsWritten, part)
    case None => None
    case Some(octets) =>
      match world.parse(octets)
      case Some(JObject(members)) => Some(members)
      case _ => None
  }

  /** The text of a member, empty when it is absent; `None` when the library throws. */
  function TextOf(members: Members, key: string): Option<string> {
    if key !in members then Some("")
    else if members[key].JString? then Some(members[key].text)
    else None
  }

  predicate MatchAudience(claims: Members, expected: string) {
    "aud" in claims &&
    match claims["aud"]
    case JString(text) => text == expected
    case JArray(items) => JString(expected) in items
    case _ => false
  }

  /** A JSON integer has 64 bits, signed or not; an unsigned one is read as signed. */
  function AsInt64(n: int): int {
    if n >= 0x8000_0000_0000_0000 then n - 0x1_0000_0000_0000_0000 else n
  }

  function ParseNumericClaim(claims: Members, key: string): Option<int> {
    if key !in claims then None
    else
      match claims[key]
      case JInteger(n) => Some(AsInt64(n))
      case JString(text) => Decimal.Stoll(text)
      case _ => None
  }

  predicate HasText(members: Members, key: string) {
    key in members && members[key].JString? && members[key].text != ""
  }

  function ExtractUserId(claims: Members): Option<string> {
    if HasText(claims, "sub") then Some(claims["sub"].text)
    else if HasText(claims, "user_id") then Some(claims["user_id"].text)
    else None
  }

  function Normalized(token: string): string {
    if StartsWith(token, "Bearer ") then token[7..] else token
  }

  function CheckClaims(options: AuthOptions, world: World, claims: Members): Verdict {
    var exp := ParseNumericClaim(claims, "exp");
    if exp.Some? && world.now >= exp.value then Denied
    else if options.jwtIssuer != "" && TextOf(claims, "iss").None? then Thrown
    else if options.jwtIssuer != "" && TextOf(claims, "iss").value != options.jwtIssuer then Denied
    else if options.jwtAudience != "" && !MatchAudience(claims, options.jwtAudience) then Denied
    else
      match ExtractUserId(claims)
      case None => Denied
      case Some(user) => Granted(user)
  }

  function CheckJwt(options: AuthOptions, world: World, token: string): Verdict {
    var split := Split(token);
    if split.None? || options.jwtSecret == "" then Denied
    else
      var parts := split.value;
      var header, claims := DecodeJwtJsonPart(world, parts.header), DecodeJwtJsonPart(world, parts.payload);
      if header.None? || claims.None? then Denied
      else
        match TextOf(header.value, "alg")
        case None => Thrown
        case Some(alg) =>
          if alg != "HS256" then Denied
          else
            var signingInput := token[..|token| - |parts.signature| - 1];
            var expected := Encode(world.hmac(options.jwtSecret, signingInput));
            if parts.signature != expected then Denied else CheckClaims(options, world, claims.value)
  }

  function Authenticate(options: AuthOptions, world: World, token: string): Verdict {
    if token == "" then Denied
    else
      var normalized := Normalized(token);
      if options.allowLegacyToken && normalized == "dev-token" then Granted("dev-user")
      else if options.allowLegacyToken && StartsWith(normalized, "user:") then Granted(normalized[5..])
      else CheckJwt(options, world, normalized)
  }

  // -------------------------------------------------------------------------------------------
  // Splitting at the dots
  // -------------------------------------------------------------------------------------------

  predicate DotFree(s: string) {
    forall k | 0 <= k < |s| :: s[k] != '.'
  }

  function Join(parts: Parts): string {
    parts.header + "." + parts.payload + "." + parts.signature
  }

  lemma FirstDot(s: string, from: nat, at: nat)
    requires from <= at < |s| && s[at] == '.' && forall k | from <= k < at :: s[k] != '.'
    ensures FindDot(s, from) == Some(at)
  {
    var found := FindDot(s, from);
    assert found.Some?;
  }

  ghost predicate AllDotFree(parts: Parts) {
    DotFree(parts.header) && DotFree(parts.payload) && DotFree(parts.signature)
  }

  lemma SplitJoins(s: string)
    requires Split(s).Some?
    ensures Join(Split(s).value) == s && AllDotFree(Split(s).value)
  {
    var first := FindDot(s, 0).value;
    var second := FindDot(s, first + 1).value;
    assert Split(s).value == Parts(s[..first], s[first + 1..second], s[second + 1..]);
    hide FindDot, Split;
    CutAt(s, first, second);
    DotFreeSlice(s, 0, first);
    DotFreeSlice(s, first + 1, second);
    DotFreeSlice(s, second + 1, |s|);
    assert s[0..first] == s[..first] && s[second + 1..|s|] == s[second + 1..];
  }

  lemma DotFreeSlice(s: string, from: nat, to: nat)
    requires from <= to <= |s| && forall k | from <= k < to :: s[k] != '.'
    ensures DotFree(s[from..to])
  {
  }

  lemma CutAt(s: string, first: nat, second: nat)
    requires first < second < |s| && s[first] == '.' && s[second] == '.'
    ensures s[..first] + "." + s[first + 1..second] + "." + s[second + 1..] == s
  {
    assert s[..first] + "." == s[..first + 1];
    assert s[..first + 1] + s[first + 1..second] == s[..second];
    assert s[..second] + "." == s[..second + 1];
  }

  lemma JoinSplits(parts: Parts)
    requires AllDotFree(parts)
    ensures Split(Join(parts)) == Some(parts)
  {
    hide FindDot;
    var s, first := Join(parts), |parts.header|;
    var second := first + 1 + |parts.payload|;
    assert forall k | 0 <= k < first :: s[k] == parts.header[k];
    assert forall k | first < k < second :: s[k] == parts.payload[k - first - 1];
    assert forall k | second < k < |s| :: s[k] == parts.signature[k - second - 1];
    FirstDot(s, 0, first);
    FirstDot(s, first + 1, second);
    assert FindDot(s, second + 1).None?;
    assert s[..first] == parts.header && s[first + 1..second] == parts.payload && s[second + 1..] == parts.signature;
  }

  /** A token splits into three parts exactly when they are dot-free and joining them gives it back. */
  lemma SplitInvertsJoin(s: string, parts: Parts)
    ensures Split(s) == Some(parts) <==> s == Join(parts) && AllDotFree(parts)
  {
    hide Split, Join, AllDotFree;
    if Split(s) == Some(parts) {
      SplitJoins(s);
    } else if s == Join(parts) && AllDotFree(parts) {
      JoinSplits(parts);
    }
  }

  // -------------------------------------------------------------------------------------------
  // Exactly which JWTs are granted
  // -------------------------------------------------------------------------------------------

  /** An expiry that is a number, or text that holds one, lies ahead; integers from 2^63 on are read as
    * negative. */
  ghost predicate Unexpired(world: World, claims: Members) {
    "exp" in claims ==>
      match claims["exp"]
      case JInteger(n) => world.now < (if n >= 0x8000_0000_0000_0000 then n - 0x1_0000_0000_0000_0000 else n)
      case JString(text) => Decimal.Stoll(text).Some? ==> world.now < Decimal.Stoll(text).value
      case _ => true
  }

  /** The audience is the one given, or is among several. */
  ghost predicate Addressed(claims: Members, audience: string) {
    && "aud" in claims
    && (claims["aud"] == JString(audience) || (claims["aud"].JArray? && JString(audience) in claims["aud"].items))
  }

  /** The conditions on the decoded parts, one by one. */
  ghost predicate ClaimsGrant(options: AuthOptions, world: World, claims: Members, user: string) {
    && Unexpired(world, claims)
    && (options.jwtIssuer == "" || ("iss" in claims && claims["iss"] == JString(options.jwtIssuer)))
    && (options.jwtAudience == "" || Addressed(claims, options.jwtAudience))
    && user != ""
    && if "sub" in claims && claims["sub"].JString? && claims["sub"] != JString("") then claims["sub"] == JString(user)
       else "user_id" in claims && claims["user_id"] == JString(user)
  }

  /** The part is base64url of octets that the parser takes for an object with these members. */
  ghost predicate Holds(world: World, part: string, members: Members) {
    exists octets :: Decode(AsWritten, part) == Some(octets) && world.parse(octets) == Some(JObject(members))
  }

  lemma DecodedIsHeld(world: World, part: string)
    ensures forall members :: Holds(world, part, members) <==> DecodeJwtJsonPart(world, part) == Some(members)
  {
    hide Decode;
    var decoded := Decode(AsWritten, part);
    forall members | DecodeJwtJsonPart(world, part) == Some(members)
      ensures Holds(world, part, members)
    {
      assert Decode(AsWritten, part) == Some(decoded.value);
    }
  }

  ghost predicate PartsGrant(options: AuthOptions, world: World, parts: Parts, user: string) {
    && options.jwtSecret != ""
    && DotFree(parts.header) && DotFree(parts.payload)
    && parts.signature == Encode(world.hmac(options.jwtSecret, parts.header + "." + parts.payload))
    && (exists header: Members :: Holds(world, parts.header, header)
          && "alg" in header && header["alg"] == JString("HS256"))
    && (exists claims: Members :: Holds(world, parts.payload, claims) && ClaimsGrant(options, world, claims, user))
  }

  lemma CheckClaimsGrantsExactly(options: AuthOptions, world: World, claims: Members, user: string)
    ensures CheckClaims(options, world, claims) == Granted(user) <==> ClaimsGrant(options, world, claims, user)
  {
  }

  lemma DotIsNoLetter(ch: char)
    requires Base64Laws.InAlphabet(ch)
    ensures ch != '.'
  {
    Base64Laws.ValueIsItsLetter(ch);
  }

  lemma LettersAreDotFree(octets: seq<Byte>)
    ensures DotFree(Encode(octets))
  {
    hide Encode, Base64Laws.InAlphabet;
    Base64Laws.EncodeShape(octets);
    forall k | 0 <= k < |Encode(octets)| ensures Encode(octets)[k] != '.' {
      DotIsNoLetter(Encode(octets)[k]);
    }
  }

  /** A JWT is granted to a user exactly when it is three dot-free parts joined by dots, the last one
    * the encoded HMAC of the first two, and the decoded header and claims meet every condition. */
  lemma JwtGrantedExactly(options: AuthOptions, world: World, token: string, user: string)
    ensures CheckJwt(options, world, token) == Granted(user) <==>
      exists parts: Parts :: token == Join(parts) && PartsGrant(options, world, parts, user)
  {
    hide Split, Encode, DecodeJwtJsonPart, CheckClaims, ClaimsGrant, Holds;
    forall part {
      DecodedIsHeld(world, part);
    }
    if CheckJwt(options, world, token) == Granted(user) {
      var parts := Split(token).value;
      SplitInvertsJoin(token, parts);
      assert token[..|token| - |parts.signature| - 1] == parts.header + "." + parts.payload;
      CheckClaimsGrantsExactly(options, world, DecodeJwtJsonPart(world, parts.payload).value, user);
      assert PartsGrant(options, world, parts, user);
    }
    forall parts: Parts | token == Join(parts) && PartsGrant(options, world, parts, user)
      ensures CheckJwt(options, world, token) == Granted(user)
    {
      LettersAreDotFree(world.hmac(options.jwtSecret, parts.header + "." + parts.payload));
      SplitInvertsJoin(token, parts);
      assert token[..|token| - |parts.signature| - 1] == parts.header + "." + parts.payload;
      CheckClaimsGrantsExactly(options, world, DecodeJwtJsonPart(world, parts.payload).value, user);
    }
  }

  // -------------------------------------------------------------------------------------------
  // Exactly which tokens make the library throw
  // -------------------------------------------------------------------------------------------

  /** A member is there and is not text. */
  predicate NotText(members: Members, key: string) {
    key in members && !members[key].JString?
  }

  /** Either the header's `alg` is not text, or everything up to the issuer check is in order and the
    * claims' `iss`, which is looked at only if an issuer is configured, is not text. */
  ghost predicate PartsThrow(options: AuthOptions, world: World, parts: Parts) {
    && options.jwtSecret != ""
    && exists header: Members, claims: Members ::
         && Holds(world, parts.header, header) && Holds(world, parts.payload, claims)
         && (|| NotText(header, "alg")
             || (&& "alg" in header && header["alg"] == JString("HS256")
                 && parts.signature == Encode(world.hmac(options.jwtSecret, parts.header + "." + parts.payload))
                 && Unexpired(world, claims)
                 && options.jwtIssuer != "" && NotText(claims, "iss")))
  }

  lemma CheckClaimsThrowsExactly(options: AuthOptions, world: World, claims: Members)
    ensures CheckClaims(options, world, claims) == Thrown <==>
      Unexpired(world, claims) && options.jwtIssuer != "" && NotText(claims, "iss")
  {
  }

  /** Checking a token throws exactly when it is three dot-free parts that decode to objects and one of
    * the two members that must be text, reached in its turn, is something else. */
  lemma JwtThrowsExactly(options: AuthOptions, world: World, token: string)
    ensures CheckJwt(options, world, token) == Thrown <==>
      exists parts: Parts :: token == Join(parts) && AllDotFree(parts) && PartsThrow(options, world, parts)
  {
    hide Split, Join, AllDotFree, Encode, DecodeJwtJsonPart, CheckClaims, ParseNumericClaim, Unexpired, Holds;
    forall parts: Parts {
      SplitInvertsJoin(token, parts);
    }
    forall part {
      DecodedIsHeld(world, part);
    }
    if Split(token).Some? {
      var parts := Split(token).value;
      assert token[..|token| - |parts.signature| - 1] == parts.header + "." + parts.payload by {
        SigningInput(parts);
      }
      if DecodeJwtJsonPart(world, parts.payload).Some? {
        CheckClaimsThrowsExactly(options, world, DecodeJwtJsonPart(world, parts.payload).value);
      }
    }
  }

  lemma SigningInput(parts: Parts)
    ensures |parts.signature| < |Join(parts)|
    ensures Join(parts)[..|Join(parts)| - |parts.signature| - 1] == parts.header + "." + parts.payload
  {
  }

  // -------------------------------------------------------------------------------------------
  // Minted tokens
  // -------------------------------------------------------------------------------------------

  /** A compact token signed with the secret, as section 7.1 of RFC 7515 lays it out. */
  function Mint(world: World, secret: string, header: seq<Byte>, payload: seq<Byte>): Parts {
    var input := Encode(header) + "." + Encode(payload);
    Parts(Encode(header), Encode(payload), Encode(world.hmac(secret, input)))
  }

  /** A token whose header part holds letters only starts with no dot-free text that holds another character. */
  lemma NoForeignPrefix(parts: Parts, prefix: string, k: nat)
    requires Base64Laws.AllLetters(parts.header) && DotFree(prefix)
    requires k < |prefix| && !Base64Laws.InAlphabet(prefix[k])
    ensures !StartsWith(Join(parts), prefix)
  {
    hide Base64Laws.InAlphabet;
    var token := Join(parts);
    assert k < |parts.header| ==> token[k] == parts.header[k];
    assert token[|parts.header|] == '.';
  }

  lemma ForeignCharacters()
    ensures !Base64Laws.InAlphabet(' ') && !Base64Laws.InAlphabet(':')
  {
    Base64Laws.ValueIsItsLetter(' ');
    Base64Laws.ValueIsItsLetter(':');
  }

  lemma MintedIsNoLegacyToken(parts: Parts)
    requires Base64Laws.AllLetters(parts.header)
    ensures
      var token := Join(parts);
      token != "" && Normalized(token) == token && token != "dev-token" && !StartsWith(token, "user:")
    ensures Normalized("Bearer " + Join(parts)) == Join(parts)
  {
    hide Base64Laws.InAlphabet, Base64Laws.AllLetters;
    var token := Join(parts);
    ForeignCharacters();
    NoForeignPrefix(parts, "Bearer ", 6);
    NoForeignPrefix(parts, "user:", 4);
    assert token[|parts.header|] == '.';
    assert DotFree("dev-token");
    assert ("Bearer " + token)[..7] == "Bearer " && ("Bearer " + token)[7..] == token;
  }

  /** The claims of a token in force: text in `alg`, unexpired, issuer and audience as configured, a
    * subject that is not empty. */
  ghost predicate InForce(options: AuthOptions, world: World, header: Members, claims: Members, subject: string) {
    && "alg" in header && header["alg"] == JString("HS256")
    && "sub" in claims && claims["sub"] == JString(subject)
    && ClaimsGrant(options, world, claims, subject)
  }

  /** A minted token in force is granted to its subject, with or without the Bearer prefix, exactly
    * when the decoder as written accepts both parts: when header and payload are multiples of three
    * octets long. Otherwise it is denied. */
  lemma MintedTokenVerdict(
      options: AuthOptions, world: World, header: seq<Byte>, payload: seq<Byte>,
      headerMembers: Members, claims: Members, subject: string)
    requires options.jwtSecret != ""
    requires world.parse(header) == Some(JObject(headerMembers)) && world.parse(payload) == Some(JObject(claims))
    requires InForce(options, world, headerMembers, claims, subject)
    ensures
      var token := Join(Mint(world, options.jwtSecret, header, payload));
      var verdict := if |header| % 3 == 0 && |payload| % 3 == 0 then Granted(subject) else Denied;
      && Split(token) == Some(Mint(world, options.jwtSecret, header, payload))
      && Authenticate(options, world, token) == verdict
      && Authenticate(options, world, "Bearer " + token) == verdict
  {
    hide Split, Encode, Decode, CheckClaims, ClaimsGrant, Normalized, StartsWith, Base64Laws.AllLetters;
    var parts := Mint(world, options.jwtSecret, header, payload);
    var token := Join(parts);
    Base64Laws.EncodeShape(header);
    MintedIsNoLegacyToken(parts);
    LettersAreDotFree(header);
    LettersAreDotFree(payload);
    LettersAreDotFree(world.hmac(options.jwtSecret, parts.header + "." + parts.payload));
    SplitInvertsJoin(token, parts);
    Base64Laws.DecodeAfterEncode(AsWritten, header);
    Base64Laws.DecodeAfterEncode(AsWritten, payload);
    assert token[..|token| - |parts.signature| - 1] == parts.header + "." + parts.payload;
    CheckClaimsGrantsExactly(options, world, claims, subject);
    assert "Bearer " + token != "";
  }

  // -------------------------------------------------------------------------------------------
  // Tokens that make the library throw
  // -------------------------------------------------------------------------------------------

  /** A token whose header the decoder as written accepts throws if `alg` is there and not text,
    * whatever its signature. */
  lemma NonTextAlgThrows(
      options: AuthOptions, world: World, header: seq<Byte>, payload: seq<Byte>, signature: string,
      members: Members, claims: Members)
    requires options.jwtSecret != "" && DotFree(signature)
    requires |header| % 3 == 0 && |payload| % 3 == 0
    requires world.parse(header) == Some(JObject(members)) && world.parse(payload) == Some(JObject(claims))
    requires NotText(members, "alg")
    ensures Authenticate(options, world, Join(Parts(Encode(header), Encode(payload), signature))) == Thrown
  {
    hide Split, Encode, Decode, CheckClaims, Normalized, StartsWith, Base64Laws.AllLetters;
    var parts := Parts(Encode(header), Encode(payload), signature);
    Base64Laws.EncodeShape(header);
    MintedIsNoLegacyToken(parts);
    LettersAreDotFree(header);
    LettersAreDotFree(payload);
    SplitInvertsJoin(Join(parts), parts);
    Base64Laws.DecodeAfterEncode(AsWritten, header);
    Base64Laws.DecodeAfterEncode(AsWritten, payload);
  }

  /** The octets of {"alg":1} and of { }. */
  const NUMBER_IN_ALG: seq<Byte> := [123, 34, 97, 108, 103, 34, 58, 49, 125]
  const NO_CLAIMS: seq<Byte> := [123, 32, 125]

  /** For instance an unsigned token with a number in `alg`, in every world that parses these texts. */
  lemma NumberInAlgThrows(options: AuthOptions, world: World)
    requires options.jwtSecret != ""
    requires world.parse(NUMBER_IN_ALG) == Some(JObject(map["alg" := JInteger(1)]))
    requires world.parse(NO_CLAIMS) == Some(JObject(map[]))
    ensures Authenticate(options, world, Join(Parts(Encode(NUMBER_IN_ALG), Encode(NO_CLAIMS), ""))) == Thrown
  {
    hide Encode, Authenticate;
    NonTextAlgThrows(options, world, NUMBER_IN_ALG, NO_CLAIMS, "", map["alg" := JInteger(1)], map[]);
  }

  // -------------------------------------------------------------------------------------------
  // Exactly which tokens are granted, legacy tokens included
  // -------------------------------------------------------------------------------------------

  /** `t` is the token without one leading "Bearer ". */
  ghost predicate Bare(token: string, t: string) {
    token == "Bearer " + t || (token == t && forall rest: string :: token != "Bearer " + rest)
  }

  /** Legacy tokens name their user or stand for the development user. */
  ghost predicate LegacyGrant(options: AuthOptions, t: string, user: string) {
    options.allowLegacyToken && ((t == "dev-token" && user == "dev-user") || t == "user:" + user)
  }

  lemma PrefixCut(s: string, prefix: string)
    ensures StartsWith(s, prefix) ==> s == prefix + s[|prefix|..]
    ensures forall rest: string :: s == prefix + rest ==> StartsWith(s, prefix) && rest == s[|prefix|..]
  {
  }

  lemma NormalizedIsBare(token: string, t: string)
    ensures Bare(token, t) <==> t == Normalized(token)
  {
    hide StartsWith;
    PrefixCut(token, "Bearer ");
  }

  /** What is granted before a token is looked at as a JWT, or that nothing is. */
  lemma LegacyVerdict(options: AuthOptions, world: World, token: string, t: string)
    requires token != "" && t == Normalized(token)
    ensures forall user :: LegacyGrant(options, t, user) ==> Authenticate(options, world, token) == Granted(user)
    ensures (forall user :: !LegacyGrant(options, t, user)) ==>
              Authenticate(options, world, token) == CheckJwt(options, world, t)
  {
    hide StartsWith, CheckJwt, Normalized;
    PrefixCut(t, "user:");
    assert "dev-token"[0] != 'u';
    if StartsWith(t, "user:") && options.allowLegacyToken {
      assert LegacyGrant(options, t, t[5..]);
    } else if t == "dev-token" && options.allowLegacyToken {
      assert LegacyGrant(options, t, "dev-user");
    }
  }

  /** A token is granted to a user exactly when, without one leading "Bearer ", it is a legacy token of
    * that user and those are allowed, or it is no allowed legacy token but a JWT that grants the user. */
  lemma AuthenticateGrantsExactly(options: AuthOptions, world: World, token: string, user: string)
    ensures Authenticate(options, world, token) == Granted(user) <==>
      && token != ""
      && exists t: string ::
           && Bare(token, t)
           && (|| LegacyGrant(options, t, user)
               || (&& (forall other :: !LegacyGrant(options, t, other))
                   && exists parts: Parts :: t == Join(parts) && PartsGrant(options, world, parts, user)))
  {
    hide Normalized, Bare, LegacyGrant, CheckJwt, Join, PartsGrant;
    forall t: string {
      NormalizedIsBare(token, t);
    }
    var t := Normalized(token);
    if token != "" {
      hide Authenticate;
      LegacyVerdict(options, world, token, t);
      JwtGrantedExactly(options, world, t, user);
      if other: string :| LegacyGrant(options, t, other) {
        OneLegacyUser(options, t, other, user);
      }
    }
  }

  lemma OneLegacyUser(options: AuthOptions, t: string, one: string, other: string)
    requires LegacyGrant(options, t, one)
    ensures LegacyGrant(options, t, other) <==> one == other
  {
    assert t == "user:" + one ==> t[0] == 'u' && t[5..] == one;
    assert t == "user:" + other ==> t[0] == 'u' && t[5..] == other;
    assert "dev-token"[0] != 'u';
  }

  /** The library throws exactly for such a token that is no allowed legacy token but a JWT that makes it
    * throw. */
  lemma AuthenticateThrowsExactly(options: AuthOptions, world: World, token: string)
    ensures Authenticate(options, world, token) == Thrown <==>
      && token != ""
      && exists t: string ::
           && Bare(token, t)
           && (forall user :: !LegacyGrant(options, t, user))
           && exists parts: Parts :: t == Join(parts) && AllDotFree(parts) && PartsThrow(options, world, parts)
  {
    hide Normalized, Bare, LegacyGrant, CheckJwt, Join, PartsThrow, AllDotFree;
    forall t: string {
      NormalizedIsBare(token, t);
    }
    assert Bare(token, Normalized(token));
    if token != "" {
      hide Authenticate;
      LegacyVerdict(options, world, token, Normalized(token));
      JwtThrowsExactly(options, world, Normalized(token));
      if user: string :| LegacyGrant(options, Normalized(token), user) {
        assert Authenticate(options, world, token) == Granted(user);
      }
    }
  }
}
