/** Addresses of configuration entries and the three kinds of key built from them. */
module ConfigKeys {
  import opened MysqlPool

  datatype Address = Address(ns: string, key: string, env: string)

  function DefaultEnv(env: string): string {
    if env == "" then "dev" else env
  }

  function Normal(a: Address): Address {
    a.(env := DefaultEnv(a.env))
  }

  /** Environment, namespace and key joined by a separator. */
  function Joined(separator: char, a: Address): string {
    a.env + [separator] + a.ns + [separator] + a.key
  }

  function StoreKey(a: Address): string {
    Joined('|', a)
  }

  function CacheKey(a: Address): string {
    "config:" + Joined(':', a)
  }

  const KEY_FIELDS: seq<string> := ["namespace_name", "key", "environment"]

  /** The filter that fixes all three key fields. */
  function Filters(a: Address): QueryRow {
    map["namespace_name" := a.ns, "key" := a.key, "environment" := a.env]
  }

  // -------------------------------------------------------------------------------------------
  // When keys tell addresses apart
  // -------------------------------------------------------------------------------------------

  lemma CutOnce(separator: char, x: string, u: string, y: string, v: string)
    requires x + [separator] + u == y + [separator] + v
    requires separator !in x && separator !in y
    ensures x == y && u == v
  {
    var left, right := x + [separator] + u, y + [separator] + v;
    assert left[|x|] == separator && right[|y|] == separator;
    assert |x| == |y|;
    assert x == left[..|x|] && u == left[|x| + 1..] && y == right[..|y|] && v == right[|y| + 1..];
  }

  /** With the separator in neither environment nor namespace, joined keys tell any addresses apart;
    * the key component may hold anything. */
  lemma JoinedIsInjective(separator: char, a: Address, b: Address)
    requires separator !in a.env && separator !in a.ns && separator !in b.env && separator !in b.ns
    requires Joined(separator, a) == Joined(separator, b)
    ensures a == b
  {
    var restA, restB := a.ns + [separator] + a.key, b.ns + [separator] + b.key;
    assert Joined(separator, a) == a.env + [separator] + restA;
    assert Joined(separator, b) == b.env + [separator] + restB;
    CutOnce(separator, a.env, restA, b.env, restB);
    CutOnce(separator, a.ns, a.key, b.ns, b.key);
  }

  function Count(ch: char, s: string): nat {
    if |s| == 0 then 0 else (if s[0] == ch then 1 else 0) + Count(ch, s[1..])
  }

  lemma {:induction false} CountAppends(ch: char, s: string, t: string)
    ensures Count(ch, s + t) == Count(ch, s) + Count(ch, t)
  {
    if |s| == 0 {
      assert s + t == t;
    } else {
      assert (s + t)[1..] == s[1..] + t;
      CountAppends(ch, s[1..], t);
    }
  }

  lemma {:induction false} CountIsMembership(ch: char, s: string)
    ensures Count(ch, s) == 0 <==> ch !in s
  {
    if |s| > 0 {
      CountIsMembership(ch, s[1..]);
    }
  }

  lemma CountOfJoined(separator: char, a: Address)
    ensures Count(separator, Joined(separator, a))
         == 2 + Count(separator, a.env) + Count(separator, a.ns) + Count(separator, a.key)
  {
    CountAppends(separator, a.env + [separator] + a.ns + [separator], a.key);
    CountAppends(separator, a.env + [separator] + a.ns, [separator]);
    CountAppends(separator, a.env + [separator], a.ns);
    CountAppends(separator, a.env, [separator]);
    assert Count(separator, [separator]) == 1;
  }

  lemma Occurrence(ch: char, s: string) returns (i: nat)
    requires ch in s
    ensures i < |s| && s[i] == ch && s == s[..i] + [ch] + s[i + 1..]
  {
    i :| 0 <= i < |s| && s[i] == ch;
  }

  ghost predicate Unambiguous(separator: char, a: Address) {
    forall b: Address | Joined(separator, b) == Joined(separator, a) :: b == a
  }

  lemma OtherReading(separator: char, a: Address) returns (b: Address)
    requires separator in a.env || separator in a.ns || separator in a.key
    ensures b != a && Joined(separator, b) == Joined(separator, a)
  {
    if separator in a.env {
      var i := Occurrence(separator, a.env);
      b := Address(a.env[i + 1..] + [separator] + a.ns, a.key, a.env[..i]);
    } else if separator in a.ns {
      var i := Occurrence(separator, a.ns);
      b := Address(a.ns[..i], a.ns[i + 1..] + [separator] + a.key, a.env);
    } else {
      var i := Occurrence(separator, a.key);
      b := Address(a.ns + [separator] + a.key[..i], a.key[i + 1..], a.env);
    }
    assert Joined(separator, b) == Joined(separator, a);
  }

  /** An address is the only one behind its joined key exactly when the separator is in none of its parts. */
  lemma UnambiguousExactly(separator: char, a: Address)
    ensures Unambiguous(separator, a) <==> separator !in a.env && separator !in a.ns && separator !in a.key
  {
    if separator in a.env || separator in a.ns || separator in a.key {
      var b := OtherReading(separator, a);
      assert !Unambiguous(separator, a);
    } else {
      forall b: Address | Joined(separator, b) == Joined(separator, a)
        ensures b == a
      {
        CountOfJoined(separator, a);
        CountOfJoined(separator, b);
        CountIsMembership(separator, a.env); CountIsMembership(separator, a.ns); CountIsMembership(separator, a.key);
        CountIsMembership(separator, b.env); CountIsMembership(separator, b.ns);
        JoinedIsInjective(separator, a, b);
      }
    }
  }

  lemma CompositeShape(a: Address)
    requires a.ns != ""
    ensures CompositeKey(Filters(a), KEY_FIELDS) == a.ns + "|" + a.key + "|" + a.env
  {
    var row := Filters(a);
    assert KEY_FIELDS[1..] == ["key", "environment"];
    assert KEY_FIELDS[1..][1..] == ["environment"];
    assert KEY_FIELDS[1..][1..][1..] == [];
    assert "" + a.ns == a.ns;
    assert CompositeFrom("", row, KEY_FIELDS) == CompositeFrom(a.ns, row, KEY_FIELDS[1..]);
    var second := a.ns + "|" + a.key;
    assert CompositeFrom(a.ns, row, KEY_FIELDS[1..]) == CompositeFrom(second, row, KEY_FIELDS[1..][1..]);
    assert CompositeFrom(second, row, KEY_FIELDS[1..][1..]) == CompositeFrom(second + "|" + a.env, row, []);
  }

  lemma CutLast(separator: char, x: string, u: string, y: string, v: string)
    requires x + [separator] + u == y + [separator] + v
    requires separator !in u && separator !in v
    ensures x == y && u == v
  {
    var left, right := x + [separator] + u, y + [separator] + v;
    assert left[|x|] == separator && right[|y|] == separator;
    assert |x| == |y|;
    assert x == left[..|x|] && u == left[|x| + 1..] && y == right[..|y|] && v == right[|y| + 1..];
  }

  /** Composite row keys tell apart addresses with a non-empty namespace when neither namespace nor
    * environment holds a bar. */
  lemma CompositeIsInjective(a: Address, b: Address)
    requires a.ns != "" && b.ns != ""
    requires '|' !in a.ns && '|' !in b.ns && '|' !in a.env && '|' !in b.env
    requires CompositeKey(Filters(a), KEY_FIELDS) == CompositeKey(Filters(b), KEY_FIELDS)
    ensures a == b
  {
    hide CompositeKey, Filters;
    CompositeShape(a);
    CompositeShape(b);
    var restA, restB := a.key + "|" + a.env, b.key + "|" + b.env;
    assert a.ns + "|" + restA == a.ns + "|" + a.key + "|" + a.env;
    assert b.ns + "|" + restB == b.ns + "|" + b.key + "|" + b.env;
    CutOnce('|', a.ns, restA, b.ns, restB);
    CutLast('|', a.key, a.env, b.key, b.env);
  }

  /** So do they when neither namespace nor key holds a bar, whatever the environment holds. */
  lemma CompositeIsInjectiveByKey(a: Address, b: Address)
    requires a.ns != "" && b.ns != ""
    requires '|' !in a.ns && '|' !in b.ns && '|' !in a.key && '|' !in b.key
    requires CompositeKey(Filters(a), KEY_FIELDS) == CompositeKey(Filters(b), KEY_FIELDS)
    ensures a == b
  {
    hide CompositeKey, Filters;
    CompositeShape(a);
    CompositeShape(b);
    var restA, restB := a.key + "|" + a.env, b.key + "|" + b.env;
    assert a.ns + "|" + restA == a.ns + "|" + a.key + "|" + a.env;
    assert b.ns + "|" + restB == b.ns + "|" + b.key + "|" + b.env;
    CutOnce('|', a.ns, restA, b.ns, restB);
    CutOnce('|', a.key, a.env, b.key, b.env);
  }

  function RowAddress(row: QueryRow): Address {
    Address(FieldOf(row, "namespace_name"), FieldOf(row, "key"), FieldOf(row, "environment"))
  }

  /** A row with all key fields and a bar-free namespace; bar-free too is its environment or, if `byKey`,
    * its key. */
  ghost predicate BarFreeRow(row: QueryRow, byKey: bool) {
    var a := RowAddress(row);
    Matches(row, Filters(a)) && a.ns != "" && '|' !in a.ns && '|' !in (if byKey then a.key else a.env)
  }

  /** So after any upserts of such rows, looking an address up finds one row only: the last upserted there. */
  lemma BarFreeUpsertsAreFound(upserts: seq<QueryRow>, n: nat, a: Address, k: nat, byKey: bool)
    requires n <= |upserts| && forall j | 0 <= j < n :: BarFreeRow(upserts[j], byKey)
    requires LastMatch(upserts, Filters(a), n, k)
    ensures
      var table, key := TableAfter(upserts, KEY_FIELDS, n), CompositeKey(Filters(a), KEY_FIELDS);
      MatchingKeys(table, Filters(a)) == {key} && key in table && table[key] == upserts[k]
  {
    MatchesItsAddress(upserts[k], a);
    forall j | k < j < n
      ensures CompositeKey(upserts[j], KEY_FIELDS) != CompositeKey(Filters(a), KEY_FIELDS)
    {
      MatchingRowsShareTheKey("", upserts[j], Filters(RowAddress(upserts[j])), KEY_FIELDS);
      if CompositeKey(upserts[j], KEY_FIELDS) == CompositeKey(Filters(a), KEY_FIELDS) {
        if byKey {
          CompositeIsInjectiveByKey(RowAddress(upserts[j]), a);
        } else {
          CompositeIsInjective(RowAddress(upserts[j]), a);
        }
        assert false;
      }
    }
    FindsTheLastUpsertExactly(upserts, KEY_FIELDS, n, Filters(a), k);
  }

  lemma MatchesItsAddress(row: QueryRow, a: Address)
    requires Matches(row, Filters(a))
    ensures RowAddress(row) == a
  {
    assert "namespace_name" in Filters(a) && "key" in Filters(a) && "environment" in Filters(a);
  }
}
