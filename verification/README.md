# A verified model of the gateway, the services and their in-process backends

The repository is a small game back end: an access gateway in front of a configuration service and a
user service, with in-process stand-ins for Redis, MySQL and the message bus. This project states what
its stateful parts do, branch by branch, and proves what callers may rely on. `dafny verify
dfyconfig.toml` checks all of it.

## What is modelled

**Gateway governance.** `TokenBucket` and `CircuitBreaker` are the classes of `framework/governance`,
one atomic step per locked method, with the clock reading as a parameter. `Resilience` is the retry loop
of one downstream call; `Gateway` interleaves any number of such calls to one service, step by step,
over one limiter and one breaker; one request run alone there does exactly what the whole call does. Main
results:

- the limiter admits a call exactly when every window that begins at an earlier call stays within
  `burst + rate * length`; no window of any run exceeds that bound; no other policy on the same bucket
  admits more at any prefix;
- every field of the breaker is a function of the event history, and half-open never changes an answer;
- however often requests retry, those that arrived in a window of length `w` send at most
  `M * (burst + rate * w)` RPCs; once the breaker trips nobody new enters the loop, and the RPCs still
  sent are covered by the unused attempts of the requests already in it.

**Tokens.** `Base64Url` is the codec as two loops, proved against recursive functions; `Base64Laws` has
its laws, among them that an encoding is its data as a number to the base 64; `Authentication` has the
splitting, the signature comparison, the claim checks and the legacy tokens, and says for all options
and tokens exactly when a token is granted and when the check throws. The decoder marks padding with -2 and then rejects values below -1 (auth_middleware.cpp:60-64). So every input that
needs padding is refused, and an invalid character in the third or fourth place of a group passes as
zero bits. Every theorem names the decoder it is about:

- `AsWritten` is the code. Decoding an encoding gives the data back if and only if its length is a
  multiple of three, and encoding a decoded string gives the string back if and only if it is whole
  groups of the 64 URL letters.
- `Repaired` treats -2 as padding and -1 as invalid. There the first law holds for all data, and the
  second holds exactly for the canonical strings, which are exactly the encodings.

**Stores and services.** `RedisStore` and `MysqlPool` are the stand-ins. `ConfigService` and
`UserService` read cache, database and local map in that order and fill back; they write in the opposite
order; what a publish, a create and a find leave in every tier is written out key by key. Decimal text in
database rows is `Decimal`.

- A user profile is written once, so the user theorems (`UserRuns`) hold for every interleaving of the
  single steps: a lookup returns the profile of the one create whose id was asked for, with its nickname
  and time.
- A configuration entry is overwritten. Without overlap the service reads like a plain map of last
  published entries, and a folding watch client mirrors `BatchGetConfig`, in both cases *exactly* under a
  condition on keys (`ConfigRuns`, `ConfigWatch`).
- When publishes and finds overlap, `ConfigOverlap` proves what survives any interleaving: only published
  entries are returned, versions never repeat, no later find misses. `ConfigDiscipline` and
  `ConfigOverlapRuns` prove exactly which disciplines at one address, with everything elsewhere
  overlapping freely, make every undisturbed find return the last entry published. Publishes of the
  address must be kept apart. Finds must be kept apart from them too, unless there is no database to fill
  back from, or there is no cache and no two addresses share a composite row key. With publishes and finds
  both apart every finished find returns the last entry published before it began, on any backends. Where
  finds may overlap publishes, an address is a regular register (`ConfigRegular`): a find returns the last
  entry whose publish had finished when it began, or one published later.
- `ConfigOverlapWatch` does the same for the watch client. It mirrors `BatchGetConfig` after every watch
  exactly when watches wait for claimed versions to reach the local map and, if there is a database, the
  publishes and finds of each address of the namespace are kept apart. (Keeping finds apart from publishes
  is not enough there: two overlapping publishes can write map and table in different orders, and a later
  find then fills the older row in.)

**Bus and metrics.** `LocalBus`, `BusConsumer` and `BusRuns` cover the topic queues, one turn of a
consumer, and all interleavings of publishers, workers, Start and Stop; `BusProgress` proves that a
started consumer comes to handle everything that waits on its topics, and that a stopping one comes to
an end. `Metrics` covers the four separately locked increments per request and says what each single
counter counts.

## Conventions and assumptions

- Times and tokens are reals; seconds in the governance classes and in Redis, milliseconds in the retry
  loop. Rate and burst are not negative, and the clock never goes back. Counters and failure counts are
  unbounded; the version and id counters are 64-bit and wrap, which is why run theorems about them
  exclude runs of 2^63 steps or more.
- Shifts and masks are divisions and remainders by powers of two; bytes are integers below 256.
- An RPC is an arbitrary status with a duration, a backoff wait is a duration that may be aborted; HMAC,
  the JSON parser and the clock are parameters. The JSON codec of the services may give up or throw; it
  is assumed to give back every entry it printed.
- `Option` stands for `std::optional`; where the C++ code lets an exception escape, the result is
  `Threw` or `Thrown`. A throwing number parser is `None`.
- Maps are walked in any order: results that depend on the order are stated as sets.
- One service instance runs over backends that were empty at its start, because version and id counters
  restart at 1. For the bus: handlers do not throw, topics are subscribed before Start, and calls
  of Start and Stop on one consumer do not overlap (a second Stop meanwhile would return at once).

Details of the code that the model keeps: a failure threshold below one acts as one; a retry loop can
also end with CANCELLED, when a backoff wait is aborted; a token whose `alg` (or, with an issuer
configured, whose `iss`) is not text raises an exception instead of being refused; two configuration
addresses that share a composite row key do not disturb a find, since rows are filtered on their fields.

## Model

| member | source | states |
|---|---|---|
| TokenBucket.TokenBucketRateLimiter.constructor | framework/governance/rate_limiter.cpp:5-9 | A new limiter starts with a full bucket refilled now. |
| TokenBucket.TokenBucketRateLimiter.Allow | framework/governance/rate_limiter.cpp:11-22 | The call refills by rate * elapsed up to the burst and is admitted if and only if a whole token is there then, which it spends; state and answer equal one step of the bucket. |
| TokenBucket.TokensStayInRange | framework/governance/rate_limiter.cpp:11-22 | Tokens lie within [0, burst] in every reachable state and the last refill is the last call. |
| TokenBucket.TokensAreTheTightestWindow | framework/governance/rate_limiter.cpp:14-20 | The balance equals the least room left by any window that opened with a call so far. |
| TokenBucket.AllowKeepsEveryWindow | framework/governance/rate_limiter.cpp:11-22 | A call is admitted if and only if admitting it keeps every window since an earlier call within burst + rate * length (and burst is at least one). |
| TokenBucket.WindowBound | framework/governance/rate_limiter.cpp:11-22 | In every run and for all s <= t, calls admitted in [s, t] number at most burst + rate * (t - s). |
| TokenBucket.GreedyIsOptimal | framework/governance/rate_limiter.cpp:11-22 | At every prefix no admission policy that keeps the same bucket non-negative has admitted more calls. |
| TokenBucket.GreedyRespectsTheBucket | framework/governance/rate_limiter.cpp:11-22 | The limiter's own answers are such a policy, so the optimum is attained. |
| CircuitBreaker.CircuitBreaker.constructor | framework/governance/circuit_breaker.cpp:5-6 | A new breaker is closed with no failures. |
| CircuitBreaker.CircuitBreaker.AllowRequest | framework/governance/circuit_breaker.cpp:8-18 | Closed and half-open permit; open permits, and turns half-open, once the cool-down has passed. |
| CircuitBreaker.CircuitBreaker.RecordSuccess | framework/governance/circuit_breaker.cpp:20-24 | A success closes the breaker and clears the failures. |
| CircuitBreaker.CircuitBreaker.RecordFailure | framework/governance/circuit_breaker.cpp:26-33 | A failure counts, and at the threshold opens the breaker at that time. |
| CircuitBreaker.HistoryDecidesTheBreaker | framework/governance/circuit_breaker.cpp:8-33 | For every threshold, count, position and opening time are functions of the event history; closed exactly when failures since the last success are below the threshold. |
| CircuitBreaker.RefusesExactly | framework/governance/circuit_breaker.cpp:8-18 | A request is refused if and only if failures since the last success reach the threshold and less than the cool-down has passed since the last failure. |
| CircuitBreaker.HalfOpenIsUnobservable | framework/governance/circuit_breaker.cpp:8-33 | A breaker that only counts failures and remembers the last one answers every request of every run the same way. |
| Resilience.GrpcRouter.UpdateRuntimeConfig | gateways/access_gateway/routing/grpc_router.cpp:436-443 | Timeouts below 100, attempts below 1 and backoffs below 0 are stored as these bounds, values in range unchanged. |
| Resilience.AttemptLoop | gateways/access_gateway/routing/grpc_router.cpp:113-143 | The loop returns the status, attempts and time of the retry specification, and the breaker was fed exactly its events in order. |
| Resilience.InvokeWithResilience | gateways/access_gateway/routing/grpc_router.cpp:106-143 | One token and then one question to the breaker come first, each at its own clock reading; either refusal ends the call with its own status and no attempt, and a refusal by the limiter leaves the breaker untouched. |
| Resilience.RetryStopsAtTheFirstStop | gateways/access_gateway/routing/grpc_router.cpp:118-141 | The number of attempts is that of the first one after which the loop must stop, and at most retry_attempts, or one if that is less. |
| Resilience.RetryUsesItsAttempts | gateways/access_gateway/routing/grpc_router.cpp:113-143 | While every reply is UNAVAILABLE or DEADLINE_EXCEEDED and no wait is aborted, max(1, retry_attempts) attempts are made; a reply with any other status ends the call at once. |
| Resilience.RetryReportsEveryAttempt | gateways/access_gateway/routing/grpc_router.cpp:122-128 | The breaker hears one event an attempt, at the time its reply arrives: failures only, but for the last, which is a success exactly if the reply was OK; the call ends at the last reply or with the aborted wait. |
| Resilience.RetryStatus | gateways/access_gateway/routing/grpc_router.cpp:122-143 | All attempts but the last failed retryably; the status is that of the last attempt, or CANCELLED exactly when a due retry was cut off by an aborted wait. |
| Resilience.RetryTimeBound | gateways/access_gateway/routing/grpc_router.cpp:114-140 | If replies meet their deadline and waits the backoff, the time is at most one timeout an attempt and one backoff between attempts (plus an aborted one). |
| Resilience.RetryDeadline | gateways/access_gateway/routing/grpc_router.cpp:113-140 | So a call takes at most attempts * timeout + (attempts - 1) * backoff. |
| Resilience.SanitizingChangesNothing | gateways/access_gateway/routing/grpc_router.cpp:436-443 | Sanitising a configuration before storing it changes no retry loop. |
| Gateway.RunKeepsInv | gateways/access_gateway/routing/grpc_router.cpp:106-143 | In every reachable state of every interleaving: each request stands where its own replies put it, the limiter answered as a bucket called at the arrival times, and the breaker is the one that heard all events in time order. |
| Gateway.AloneIsTheLoop | gateways/access_gateway/routing/grpc_router.cpp:118-143 | From any state the run can go on by actions of one request alone, at the times the retry loop would take, so that the request sends as many RPCs and ends with the status and at the time the loop says, and breaker and events are as after the loop; nothing else has moved. |
| Gateway.AloneIsTheCall | gateways/access_gateway/routing/grpc_router.cpp:106-143 | From any reachable state the run can go on by one new request alone that does what InvokeWithResilience does: token, then breaker, then loop, with the same status, number of RPCs, end time, bucket and breaker; no other request has moved. |
| Gateway.AttemptsPerWindow | gateways/access_gateway/routing/grpc_router.cpp:106-141 | In every run the requests that arrived in a window of length w send at most M * (burst + rate * w) RPCs. |
| Gateway.TrippedMeansNoNewWork | gateways/access_gateway/routing/grpc_router.cpp:109-141 | From the trip until a success or the end of the cool-down since the latest failure, nobody new enters the attempt loop. |
| Gateway.AttemptsWhileCooling | gateways/access_gateway/routing/grpc_router.cpp:109-141 | The RPCs sent in that time number at most the unused attempts of the requests already in the loop. |
| Base64Url.Base64UrlEncode | gateways/access_gateway/auth/auth_middleware.cpp:22-38 | The encoding loop computes the group-by-group encoding. |
| Base64Url.Base64UrlDecode | gateways/access_gateway/auth/auth_middleware.cpp:49-77 | The padding and decoding loops compute the group-by-group decoding with the guard as written. |
| Base64Laws.AlphabetIsTheTable | gateways/access_gateway/auth/auth_middleware.cpp:23 | A character is in the URL alphabet if and only if it is in the table. |
| Base64Laws.ValuesAreTheTable | gateways/access_gateway/auth/auth_middleware.cpp:23-47 | The table is the URL alphabet in its order, a letter decodes to its place there, and + and / decode to 62 and 63. |
| Base64Laws.GroupRoundTrip | gateways/access_gateway/auth/auth_middleware.cpp:27-35 | A group of n octets encodes to n + 1 letters; padded and decoded it comes back, as written only for three octets, repaired always. |
| Base64Laws.EncodeShape | gateways/access_gateway/auth/auth_middleware.cpp:22-38 | An encoding has length ceil(4n/3) and only letters of the URL alphabet. |
| Base64Laws.DecodeAfterEncode | gateways/access_gateway/auth/auth_middleware.cpp:22-77 | As written, decode(encode(x)) is x if the length is a multiple of three and nothing otherwise; repaired, it is x for every x. |
| Base64Laws.EncodeIsInjective | gateways/access_gateway/auth/auth_middleware.cpp:22-38 | No two byte strings have the same encoding. |
| Base64Laws.EncodingIsTheNumber | gateways/access_gateway/auth/auth_middleware.cpp:22-38 | For all data, the encoding read as a number to the base 64 is the data read as a number to the base 256, followed by two or four zero bits if the last group is short. |
| Base64Laws.AcceptsExactly | gateways/access_gateway/auth/auth_middleware.cpp:49-64 | As written, an input is accepted if and only if it is whole groups with no padding sign whose first two places of every group are valid. |
| Base64Laws.DecodesToPlain | gateways/access_gateway/auth/auth_middleware.cpp:49-77 | As written, every accepted input decodes to the data whose encoding is its plain form: + and / read as - and _, invalid characters in late places as A. |
| Base64Laws.SignsDecodeAlike | gateways/access_gateway/auth/auth_middleware.cpp:40-47 | Under either guard an input with + and / decodes exactly as with - and _ in their places. |
| Base64Laws.InvalidCharactersPass | gateways/access_gateway/auth/auth_middleware.cpp:60-70 | As written, "AA!*" decodes like "AAAA"; repaired, it is refused. |
| Base64Laws.EncodeAfterDecode | gateways/access_gateway/auth/auth_middleware.cpp:22-77 | As written, a string is decoded and encodes back to itself if and only if it is whole groups over the URL alphabet. |
| Base64Laws.EncodingsAreCanonical | gateways/access_gateway/auth/auth_middleware.cpp:22-38 | Encodings have no single letter left over and no stray bits in a short last group. |
| Base64Laws.CanonicalIsAnEncoding | gateways/access_gateway/auth/auth_middleware.cpp:22-38 | Every canonical string is the encoding of some data. |
| Base64Laws.RepairedEncodeAfterDecode | gateways/access_gateway/auth/auth_middleware.cpp:22-77 | Repaired, a string is decoded and encodes back to itself if and only if it is canonical. |
| Authentication.SplitInvertsJoin | gateways/access_gateway/auth/auth_middleware.cpp:171-186 | A token splits into three given parts if and only if they are dot-free and joined by dots give the token. |
| Authentication.JwtGrantedExactly | gateways/access_gateway/auth/auth_middleware.cpp:171-242 | A token is granted to a user if and only if it is three dot-free parts, the last the encoded HMAC of the first two, with HS256 and claims that meet every condition. |
| Authentication.JwtThrowsExactly | gateways/access_gateway/auth/auth_middleware.cpp:188-229 | Checking a token throws if and only if it is three dot-free parts, a secret is set, both parts decode to objects, and either `alg` is there and not text, or `alg` is HS256, signature and expiry are in order, an issuer is configured and `iss` is there and not text. |
| Authentication.NonTextAlgThrows | gateways/access_gateway/auth/auth_middleware.cpp:188-195 | A token whose header and payload the decoder accepts and the parser takes for objects throws, whatever its signature, if `alg` is there and not text. |
| Authentication.NumberInAlgThrows | gateways/access_gateway/auth/auth_middleware.cpp:195 | For instance the unsigned token of {"alg":1} and { }, in every world that parses these texts. |
| Authentication.AuthenticateGrantsExactly | gateways/access_gateway/auth/auth_middleware.cpp:149-243 | For all options, worlds, tokens and users: a non-empty token is granted if and only if, without one leading "Bearer ", it is dev-token for dev-user or user: and the user with legacy tokens allowed, or it is no allowed legacy token but a JWT that grants the user. |
| Authentication.AuthenticateThrowsExactly | gateways/access_gateway/auth/auth_middleware.cpp:149-229 | The check throws if and only if the token, without one leading "Bearer ", is no allowed legacy token but a JWT that makes the JSON library throw. |
| Authentication.MintedTokenVerdict | gateways/access_gateway/auth/auth_middleware.cpp:149-243 | A minted token in force splits back into its parts and yields its subject, with or without Bearer, if header and payload lengths are multiples of three, and is denied otherwise. |
| Decimal.ParseAfterToString | services/config_service/config_service_impl.cpp:72-82 | Parsing the decimal text of any integer gives the integer. |
| Decimal.RoundTrip | services/user_service/user_service_impl.cpp:52-63 | The 64-bit and 32-bit parsers give a printed number back if and only if it fits their type. |
| Decimal.ToStringIsInjective | services/user_service/user_service_impl.cpp:112 | Different numbers have different decimal text, so ids made from different counters differ. |
| Decimal.DigitsAreDecimal | services/user_service/user_service_impl.cpp:52-53 | Printed numbers use the ten digits in their order and no leading zero. |
| Decimal.ParseStopsAtTheRest | services/user_service/user_service_impl.cpp:62-63 | A number is read behind white space and one sign, up to the first character that is no digit. |
| Decimal.NoDigitNoNumber | services/user_service/user_service_impl.cpp:62-63 | Text without a digit in that place makes the parser throw. |
| RedisStore.RedisClient.PurgeExpired | infrastructure/storage/redis/redis_client.cpp:42-50 | Only the named key is dropped, and only past its deadline. |
| RedisStore.RedisClient.Set | infrastructure/storage/redis/redis_client.cpp:60-64 | The key holds the value with no deadline; nothing else changes. |
| RedisStore.RedisClient.Get | infrastructure/storage/redis/redis_client.cpp:66-73 | The answer and the store are those after purging the key. |
| RedisStore.RedisClient.Del | infrastructure/storage/redis/redis_client.cpp:75-78 | The key is gone; the answer tells whether it was stored. |
| RedisStore.RedisClient.Expire | infrastructure/storage/redis/redis_client.cpp:80-87 | A stored key, even one past its deadline, gets a new deadline. |
| RedisStore.SetStays | infrastructure/storage/redis/redis_client.cpp:60-73 | A value set and since then only read is what a Get returns at any time. |
| RedisStore.LeaseEndsExactly | infrastructure/storage/redis/redis_client.cpp:42-87 | After an Expire of a set value, and only Gets before and since, a Get returns the value if and only if less than the lease has passed. |
| RedisStore.MissedKeyIsGone | infrastructure/storage/redis/redis_client.cpp:42-87 | In every run, a key that a Get missed stays unknown to every later Get and Expire until it is set again. |
| RedisStore.DeletedKeyIsGone | infrastructure/storage/redis/redis_client.cpp:60-78 | So does a deleted key. |
| RedisStore.StepAgrees | infrastructure/storage/redis/redis_client.cpp:42-87 | One operation keeps the lazy store equal to an eager one if and only if it gives no expired key a positive lease. |
| RedisStore.LazyIsEagerExactly | infrastructure/storage/redis/redis_client.cpp:42-87 | After every operation a Get of any key would be answered as by the eager store if and only if no Expire reached a key past its deadline with a positive lease. |
| RedisStore.GetAgreesExactly | infrastructure/storage/redis/redis_client.cpp:42-87 | A Get the run issues is answered as by the eager store if and only if its key was not renewed past its deadline since it was last written, or is absent, or its present lease has ended. |
| MysqlPool.BuildCompositeKey | infrastructure/storage/mysql/mysql_connection_pool.cpp:32-41 | The loop joins the key fields' values with bars, none in front of the first non-empty text. |
| MysqlPool.CompositeExactly | infrastructure/storage/mysql/mysql_connection_pool.cpp:32-41 | Leading absent or empty fields leave no trace in a composite key; from the first other one on all values are joined by bars. |
| MysqlPool.ConnectionPool.UpsertRow | infrastructure/storage/mysql/mysql_connection_pool.cpp:72-78 | The row replaces what was stored under its composite key in that table; nothing else changes. |
| MysqlPool.ConnectionPool.GetRow | infrastructure/storage/mysql/mysql_connection_pool.cpp:80-95 | It returns some row whose field has the value, and nothing exactly when there is none. |
| MysqlPool.ConnectionPool.FindRows | infrastructure/storage/mysql/mysql_connection_pool.cpp:97-111 | It returns each matching row of the table once, and no other. |
| MysqlPool.ExactLookup | infrastructure/storage/mysql/mysql_connection_pool.cpp:72-111 | With all key fields fixed at most one row matches: the one under the filter's composite key. |
| MysqlPool.TableHoldsLastWriters | infrastructure/storage/mysql/mysql_connection_pool.cpp:72-78 | After any upserts a table holds under each composite key the last row upserted with it. |
| MysqlPool.FindsTheLastUpsertExactly | infrastructure/storage/mysql/mysql_connection_pool.cpp:72-111 | An exact lookup finds the last row upserted with those fields, alone, if and only if no later upsert with other fields ran into the same composite key. |
| ConfigKeys.JoinedIsInjective | services/config_service/config_service_impl.cpp:25-35 | Store and cache keys tell addresses apart when environment and namespace hold no separator, whatever the key part holds. |
| ConfigKeys.UnambiguousExactly | services/config_service/config_service_impl.cpp:25-35 | An address is the only one behind its joined key if and only if none of its parts holds the separator. |
| ConfigKeys.CompositeIsInjective | infrastructure/storage/mysql/mysql_connection_pool.cpp:32-41 | Composite keys tell apart addresses with a non-empty namespace when namespace and environment hold no bar, whatever the key part holds. |
| ConfigKeys.CompositeIsInjectiveByKey | infrastructure/storage/mysql/mysql_connection_pool.cpp:32-41 | So they do when namespace and key part hold no bar, whatever the environment holds. |
| ConfigKeys.BarFreeUpsertsAreFound | infrastructure/storage/mysql/mysql_connection_pool.cpp:72-111 | After any upserts of rows of either kind, looking an address up finds exactly one row, the last upserted there. |
| ConfigService.RowRoundTrip | services/config_service/config_service_impl.cpp:67-85 | An entry comes back from its database row if and only if its version fits 64 bits; otherwise parsing throws. |
| ConfigService.MissingFieldsAreDefaults | services/config_service/config_service_impl.cpp:77-85 | A row that lacks a field is read with the default of that field alone. |
| ConfigService.ConfigServiceImpl.FindEntry | services/config_service/config_service_impl.cpp:87-124 | Cache, then database with back-fill of cache and map, then the map; answer and all three tiers as specified, with the payloads and rows that make a parser throw. |
| ConfigService.ConfigServiceImpl.PublishConfig | services/config_service/config_service_impl.cpp:158-189 | An empty namespace or key changes nothing; otherwise the entry gets its environment and the next version and is written to map, database and cache. |
| ConfigService.ConfigServiceImpl.CollectNamespace | services/config_service/config_service_impl.cpp:126-136 | It returns exactly the mapped entries of the namespace newer than the version, once for each key they are mapped under. |
| ConfigService.PublishedIsInEveryTier | services/config_service/config_service_impl.cpp:158-189 | Without namespace or key nothing changes; otherwise the entry, with the counter as version and "dev" for no environment, is in map, row and cache under the three keys written out, and nothing else changes. |
| ConfigService.CachedEntryIsReturned | services/config_service/config_service_impl.cpp:87-99 | A cached payload in force that parses is the answer, one that makes the parser throw ends the find; map and table stay. |
| ConfigService.StoredEntryIsReturned | services/config_service/config_service_impl.cpp:101-116 | Otherwise a readable row of the address is the answer, and then cache and map hold it. |
| ConfigService.UnreadableEntryThrows | services/config_service/config_service_impl.cpp:107-108 | A row whose version cannot be read makes the find throw and fills nothing back. |
| ConfigService.MappedEntryIsReturned | services/config_service/config_service_impl.cpp:118-124 | With neither, the map decides, and nothing is filled back. |
| ConfigRuns.RunKeepsKnown | services/config_service/config_service_impl.cpp:87-189 | In every non-overlapping run, whatever the cache loses in between and whichever backends are there, every tier holds only latest entries, each under its own key, and the local map lacks none. |
| ConfigRuns.ClashMisleads | services/config_service/config_service_impl.cpp:25-35 | For any two addresses, one of them publishable, that share a store key or a used cache key there is a run in which a find of the other is misled. |
| ConfigRuns.ReadsLikeAMapExactly | services/config_service/config_service_impl.cpp:87-124 | Over a set of addresses every run reads like the plain map of last published entries if and only if no two of them share a store key or, with a cache, a cache key. |
| ConfigRuns.SeparatorFreeIsSeparate | services/config_service/config_service_impl.cpp:25-35 | Addresses without '\|' and ':' in environment and namespace meet that condition. |
| ConfigRuns.TiersAgree | services/config_service/config_service_impl.cpp:87-124 | Every tier that holds something for an address holds its latest entry, and the local map holds it exactly if it was published. |
| ConfigWatch.WatchCatchesUp | services/config_service/config_service_impl.cpp:191-203 | One watch with the largest version seen as cursor brings the client level with BatchGetConfig. |
| ConfigWatch.RunKeepsInv | services/config_service/config_service_impl.cpp:149-203 | Through every run the client lacks nothing up to its cursor, and is level after each watch. |
| ConfigWatch.ClashLosesTrack | services/config_service/config_service_impl.cpp:25-29 | For two addresses that share a store key there is a run after which the client is not level. |
| ConfigWatch.WatchMirrorsExactly | services/config_service/config_service_impl.cpp:126-203 | The client equals BatchGetConfig after every watch of every run if and only if no address of its namespace shares a store key with another one. |
| ConfigOverlap.PublishStepsAreThePublish | services/config_service/config_service_impl.cpp:158-189 | The single steps of a publish, taken together, are the publish. |
| ConfigOverlap.FindStepsAreTheFind | services/config_service/config_service_impl.cpp:87-124 | The single steps of a find, taken together, are the find. |
| ConfigOverlap.PublishedIsFound | services/config_service/config_service_impl.cpp:87-189 | From any state of the tiers, what was published is found right afterwards, with the version it was given; no environment means "dev" to both. |
| ConfigOverlap.RunKeepsInv | services/config_service/config_service_impl.cpp:87-189 | Under every interleaving all tiers and all pending operations hold only entries that were given a version, under their own keys. |
| ConfigOverlap.FindsReturnPublished | services/config_service/config_service_impl.cpp:87-124 | Under every interleaving a find never throws and returns only an entry published at an address that shares a key with the one asked for. |
| ConfigOverlap.VersionsNeverRepeat | services/config_service/config_service_impl.cpp:167 | No two publishes of a run get the same version. |
| ConfigOverlap.LaterFindsDoNotMiss | services/config_service/config_service_impl.cpp:87-189 | Once a publish has done its map write, no find of its address that begins later misses, whichever backends are there and whatever overlaps. |
| ConfigDiscipline.RunKeepsMapMode | services/config_service/config_service_impl.cpp:87-189 | For an address that shares no store or cache key: with its publishes apart, and its finds apart or no database, in every reachable state the local map, the row and the cached payload are those of its last publish from the write of each on, unless evicted. |
| ConfigDiscipline.ToleratedOverlap | services/config_service/config_service_impl.cpp:87-189 | Over addresses that share no store or used cache key, under a tolerated discipline at one address and whatever overlaps elsewhere, every find of it during which no publish of it is unfinished returns the last entry published there. |
| ConfigDiscipline.EveryFindReturnsTheLatest | services/config_service/config_service_impl.cpp:87-189 | Over such addresses, with publishes and finds of one of them apart, on any backends, every finished find of it returned the last entry published there before it began. |
| ConfigRegular.ToleratedFindsAreRegular | services/config_service/config_service_impl.cpp:87-189 | Over such addresses, under a tolerated discipline at one of them, every finished find of it, overlapped or not, returned the last entry whose publish had finished when it began or one published later, under way when it began or meanwhile; it missed only if none had finished. |
| ConfigOverlapRuns.OlderVersionWins | services/config_service/config_service_impl.cpp:167-179 | If publishes of an address may overlap there is, on any backends, a run with nothing left unfinished after which version 1 is found although version 2 was published. |
| ConfigOverlapRuns.BackFillBringsBackTheOld | services/config_service/config_service_impl.cpp:107-115 | If finds may overlap publishes and there is a database, there is such a run that ends with version 1 in the map, and in the cache if there is one, in front of the row of version 2. |
| ConfigOverlapRuns.LostRowShowsTheOld | services/config_service/config_service_impl.cpp:101-122 | Without a cache, an address that shares the composite row key then makes a find return version 1. |
| ConfigOverlapRuns.OverlapIsToleratedExactly | services/config_service/config_service_impl.cpp:87-189 | Over addresses that share no store or used cache key: in every run that keeps the discipline every undisturbed find returns the last entry published at its address, if and only if publishes are kept apart and either finds are too, or there is no database, or there is no cache and no two addresses share a composite key. |
| ConfigOverlapWatch.ToleratedWatch | services/config_service/config_service_impl.cpp:126-203 | In a namespace whose addresses share no store key with others: if watches wait for map writes of claimed versions and, with a database, publishes and finds of each of its addresses are kept apart, the client equals BatchGetConfig after every watch of every run. |
| ConfigOverlapWatch.WatchMissesALateWrite | services/config_service/config_service_impl.cpp:167-172 | If watches need not wait, there is a run that ends with a watch after which BatchGetConfig has version 1 at an address of the namespace and the client, past version 2, has nothing there. |
| ConfigOverlapWatch.OverlappingFindLosesTrack | services/config_service/config_service_impl.cpp:107-113 | If finds may overlap publishes and there is a database, there is a run that ends with a watch after which BatchGetConfig has version 1 at an address and the client holds version 2. |
| ConfigOverlapWatch.OverlappingPublishesLoseTrack | services/config_service/config_service_impl.cpp:169-176 | So there is if publishes of an address may overlap and there is a database, even with finds kept apart. |
| ConfigOverlapWatch.WatchIsToleratedExactly | services/config_service/config_service_impl.cpp:126-203 | With two publishable addresses in a separate namespace, the client equals BatchGetConfig after every watch of every run that keeps the discipline if and only if watches wait and, with a database, publishes and finds are kept apart. |
| UserService.RowRoundTrip | services/user_service/user_service_impl.cpp:47-65 | A profile comes back from its database row if and only if level and creation time fit 32 and 64 bits. |
| UserService.MissingFieldsAreDefaults | services/user_service/user_service_impl.cpp:57-65 | A row that lacks a field is read with the default of that field alone. |
| UserService.UserServiceImpl.TableRow | services/user_service/user_service_impl.cpp:77-79 | The row found by id is the one stored under the id. |
| UserService.UserServiceImpl.FindUser | services/user_service/user_service_impl.cpp:67-95 | The method takes the lookup's steps one after the other: answer and all three tiers. |
| UserService.UserServiceImpl.CreateUser | services/user_service/user_service_impl.cpp:108-131 | The profile has the id "user_" and the old counter, the nickname given or "anonymous", no avatar, level 1 and the time given; the counter is one further, and the three writes are taken one after the other. |
| UserService.CachedProfileIsReturned | services/user_service/user_service_impl.cpp:67-75 | A cached payload in force that parses is the answer; map and table stay. |
| UserService.UnreadableProfileThrows | services/user_service/user_service_impl.cpp:69-80 | A payload that makes the parser throw, or else a row whose numbers cannot be read, ends the lookup and fills no map back. |
| UserService.StoredProfileIsReturned | services/user_service/user_service_impl.cpp:77-88 | Otherwise a readable row with the id is the answer, and then cache and map hold it. |
| UserService.MappedProfileIsReturned | services/user_service/user_service_impl.cpp:90-95 | With neither, the map decides, and nothing is filled back. |
| UserService.CreatedIsInEveryTier | services/user_service/user_service_impl.cpp:119-127 | A create leaves its profile in the map, its row under the id, and its payload in the cache without a deadline. |
| UserRuns.RunKeepsInv | services/user_service/user_service_impl.cpp:67-131 | In every interleaving all tiers and pending operations hold only profiles exactly as created, under their own ids. |
| UserRuns.LookupsAreRight | services/user_service/user_service_impl.cpp:67-95 | Under every interleaving a lookup returns nothing or exactly the profile created under that id, and never throws. |
| UserRuns.IdsNeverRepeat | services/user_service/user_service_impl.cpp:112 | No two creates of a run get the same id. |
| UserRuns.CreatedStays | services/user_service/user_service_impl.cpp:108-131 | What was created under an id is never replaced. |
| UserRuns.LaterLookupsFindTheUser | services/user_service/user_service_impl.cpp:67-131 | Once a create has done its map write, every lookup of its id that begins later returns its profile when it finishes, whichever backends are there and whatever the cache loses. |
| UserRuns.FoundStaysFound | services/user_service/user_service_impl.cpp:67-131 | Once any lookup has returned a profile, every lookup of its id that begins later returns the same when it finishes. |
| UserRuns.ProfilesComeFromCreates | services/user_service/user_service_impl.cpp:108-131 | Every created profile of a run comes from one create: the counter of creates in its id, that create's nickname ("anonymous" if empty) and time, no avatar, level 1. |
| UserRuns.FoundIsOfOneCreate | services/user_service/user_service_impl.cpp:67-131 | Under every interleaving a lookup that finds something returns the profile of one create of the run, the one whose id was asked for. |
| UserRuns.CreatedUserIsFound | services/user_service/user_service_impl.cpp:67-131 | From call to answer: once a given create has done its map write, every later lookup of its id returns the profile its arguments ask for when it finishes. |
| LocalBus.LocalStreamBus.QueueFor | infrastructure/mq/core/local_bus.h:42-49 | A topic gets a queue of its own when first named and keeps it. |
| LocalBus.LocalStreamBus.Publish | infrastructure/mq/core/local_bus.h:21-28 | The message goes to the end of its topic's queue and no other topic changes: the queues are those the state machine steps to. |
| LocalBus.TopicQueue.PopFront | infrastructure/mq/core/local_bus.h:34-37 | The loop takes the oldest messages, as many as asked for and available, in order. |
| LocalBus.LocalStreamBus.Pop | infrastructure/mq/core/local_bus.h:30-39 | They leave the topic's queue, which is empty then if it had no more than asked for, and no other topic changes: batch and queues are those of the state machine's step. |
| BusConsumer.RedisStreamsConsumer.Subscribe | infrastructure/mq/core/consumer.cpp:21-24 | The topic is polled from then on, once a turn. |
| BusConsumer.RedisStreamsConsumer.Handle | infrastructure/mq/core/consumer.cpp:34-37 | A popped batch reaches the handler of its topic in order. |
| BusConsumer.RedisStreamsConsumer.PollTopic | infrastructure/mq/core/consumer.cpp:34-37 | One batch of the topic is popped and handed to its handler in order. |
| BusConsumer.RedisStreamsConsumer.Poll | infrastructure/mq/core/consumer.cpp:32-38 | One turn polls the subscribed topics one after the other, and tells whether any had a message. |
| BusConsumer.TurnMovesOneBatch | infrastructure/mq/core/consumer.cpp:32-38 | A turn moves the oldest messages of each subscribed topic, at most a batch, from queue to handler; per topic nothing is lost or reordered, and other topics stay. |
| BusConsumer.ShortQueueIsEmptied | infrastructure/mq/core/consumer.cpp:32-38 | A turn empties every subscribed queue of at most 32 messages and hands all of it to the handler in order. |
| BusRuns.RunKeepsInv | infrastructure/mq/core/consumer.cpp:26-53 | In every reachable state popped batches followed by the queue are the published stream, each consumer has handled or holds its share of it, and the running flag fits the worker. |
| BusRuns.EveryMessageOnceInOrder | infrastructure/mq/core/local_bus.h:21-39 | At every step, popped batches in pop order followed by the queue are the payloads sent to the topic by the run's publishes, every popped message has one owner, and each consumer has handled or holds its own ones in publish order. |
| BusRuns.StopLeavesNothingUnhandled | infrastructure/mq/core/consumer.cpp:46-53 | When Stop has returned, its consumer has handled everything it popped, on every topic. |
| BusProgress.StartedConsumerPolls | infrastructure/mq/core/consumer.cpp:26-43 | From any reachable state a consumer that is not stopping can go on by its Start and its worker's steps alone: the batch in hand and the turn under way are finished, then all subscriptions are polled as by one turn. |
| BusProgress.StartedConsumerDrains | infrastructure/mq/core/consumer.cpp:26-43 | And on, until a topic it subscribed to is empty and its handler has had, in order, all that was in hand or waiting. |
| BusProgress.StopComesToAnEnd | infrastructure/mq/core/consumer.cpp:46-53 | After a stop request the worker's own steps finish the turn under way and end the worker, so that Stop can return. |
| Metrics.MetricsRegistry.Increment | infrastructure/observability/metrics.cpp:18-21 | The named counter grows by the amount, from 0 if it is new; no other changes. |
| Metrics.ToMetricSafe | gateways/access_gateway/routing/grpc_router.cpp:47-54 | In place, every character that is no ASCII letter or digit becomes an underscore and the others stay. |
| Metrics.Finish | gateways/access_gateway/routing/grpc_router.cpp:250-262 | The lambda takes the request's three or four increments one after the other. |
| Metrics.FinishAddsOne | gateways/access_gateway/routing/grpc_router.cpp:250-262 | Finishing a request adds one to the total, to the counter of its path made safe, to that of its status and, if it has a service, to that of the service made safe, and to no other counter. |
| Metrics.FamiliesAreDisjoint | gateways/access_gateway/routing/grpc_router.cpp:254-261 | For every path, status and service the four counter names fall into four different families. |
| Metrics.RunKeepsSums | gateways/access_gateway/routing/grpc_router.cpp:250-271 | In every interleaving each family's sum counts the requests past that step. |
| Metrics.CountersAreConserved | gateways/access_gateway/routing/grpc_router.cpp:250-271 | At every step total >= route sum >= status sum >= downstream sum, and the first three are equal whenever no request is in the middle of its increments. |
| Metrics.RequestsAreBegun | gateways/access_gateway/routing/grpc_router.cpp:250-271 | The requests counted are those of the run in order, each with its own path, status and service. |
| Metrics.CounterMeaning | gateways/access_gateway/routing/grpc_router.cpp:250-271 | In every reachable state each single counter counts: the total the requests past their first increment, a route counter those past the second whose path is alike once made safe, a status counter those past the third with just that code, a downstream counter those past the fourth whose service is alike. |

## Left out

- ConfigWatch.WatchMirrorsExactly: is about runs of fewer than 2^63 steps, because the 64-bit version counter wraps.
- UserRuns.LookupsAreRight: is about runs of fewer than 2^63 steps, because the 64-bit id counter wraps; so are the other run theorems of UserRuns and of ConfigOverlap.
- ConfigOverlap.LaterFindsDoNotMiss: says that an entry is found, not which one, because no discipline is assumed; ConfigOverlapRuns.OverlapIsToleratedExactly says when it is the last one.
- ConfigOverlapRuns.OverlapIsToleratedExactly: counts a find as undisturbed if no publish of its address is unfinished while it runs; what a find that overlaps a publish returns is stated by ConfigRegular.ToleratedFindsAreRegular and, without any discipline, by ConfigOverlap.FindsReturnPublished. It and ConfigOverlapWatch.WatchIsToleratedExactly are about runs of fewer than 2^63 - 1 steps.
- ConfigService.ConfigServiceImpl.PublishConfig: leaves out the etcd put and the bus notification that follow the three writes.
- BusConsumer.RedisStreamsConsumer.Subscribe: does not model that a second subscription replaces the handler.
- ConfigRuns.ReadsLikeAMapExactly: concerns addresses with an explicit environment; an empty one is read as "dev" before any key is built.
- BusConsumer.RedisStreamsConsumer.Poll: is one turn without interference; the endless worker loop, its thread and its 50 ms sleep are the state machine of BusRuns.
- Floating-point rounding of tokens and times, negative rates or bursts, and overflow of plain counters.
- The etcd configuration provider and the bus notification of PublishConfig, and the thin RPC wrappers GetConfig, BatchGetConfig and GetUser around the modelled functions.
- Two service instances, or two runs of one, over the same backends: their counters restart at 1 and overwrite each other.
- Runs over a cache with payloads that the service did not write itself; a single find over one is modelled, with the exception it can end in.
- Exceptions of the JSON printer on text that is no valid UTF-8.
- Redis streams (XAdd, XRead), the SQL pass-through calls of the pool, and the sharing of backend state by address.
- Rendering of metrics, request latencies, tracing and logging.
- Sockets, coroutines, TLS, gRPC stubs and name resolution, the HTTP and WebSocket handlers, route bodies and error mapping.
- The etcd stand-in: its state does not outlive the calls that use it, so it has no cross-call behaviour to state.
- The blocking RetryPolicy helper, which the gateway does not use, the traffic router, the game service, log levels, error-code tables, configuration defaults, the command-line tools and the benchmarks.
