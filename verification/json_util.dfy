/**
 * `SortJson` and `SortJsonKeys` (utility/json_util.go): the canonical text
 * a provider signs. The document is decoded into Go maps, every map
 * reached through maps is rebuilt with its keys visited in ascending
 * order, and the result is encoded again.
 *
 * A Go `map[string]interface{}` is a `JObject` whose members are listed in
 * the map's iteration order, which Go leaves unspecified. The decoder and
 * the encoder (`encoding/json`) are library code and appear as the
 * function parameters of a `JsonCodec`.
 */
module JsonUtil {
  import opened GoStrings
  import opened Errors

  /** A decoded JSON value, as `json.Unmarshal` into `interface{}` produces it. */
  datatype Json =
    | JNull
    | JBool(b: bool)
    | JNumber(text: string)
    | JString(s: string)
    | JArray(items: seq<Json>)
    | JObject(members: seq<Member>)

  datatype Member = Member(key: string, value: Json)

  function KeysOf(ms: seq<Member>): (ks: seq<string>)
    ensures |ks| == |ms| && forall i :: 0 <= i < |ms| ==> ks[i] == ms[i].key
  {
    seq(|ms|, i requires 0 <= i < |ms| => ms[i].key)
  }

  predicate Distinct(ks: seq<string>)
  {
    forall i, j :: 0 <= i < j < |ks| ==> ks[i] != ks[j]
  }

  /** The members of a Go map: no key twice. */
  predicate DistinctKeys(ms: seq<Member>)
  {
    Distinct(KeysOf(ms))
  }

  /** Every object in the value, at any depth, is a map. */
  predicate WellFormed(v: Json)
  {
    match v
    case JArray(items) => forall i :: 0 <= i < |items| ==> WellFormed(items[i])
    case JObject(ms) => DistinctKeys(ms) && forall i :: 0 <= i < |ms| ==> WellFormed(ms[i].value)
    case _ => true
  }

  /** What `json.Unmarshal` can produce: duplicate keys collapse into one map entry. */
  type GoValue = v: Json | WellFormed(v) witness JNull

  /** `encoding/json`: decoding into `map[string]interface{}` fails (None) on bad input. */
  datatype JsonCodec = JsonCodec(unmarshal: seq<byte> -> Option<GoValue>, marshal: Json -> seq<byte>)

  /** Go's `a <= b` on strings. */
  predicate LessEq(a: string, b: string)
  {
    !Less(b, a)
  }

  predicate Sorted(ks: seq<string>)
  {
    forall i, j {:trigger LessEq(ks[i], ks[j])} :: 0 <= i < j < |ks| ==> LessEq(ks[i], ks[j])
  }

  lemma LessEqTransitive(a: string, b: string, c: string)
    requires LessEq(a, b) && LessEq(b, c)
    ensures LessEq(a, c)
  {
    if Less(c, a) {
      if a == b {
      } else {
        LessTotal(a, b);
        LessTransitive(c, a, b);
      }
    }
  }

  /** Inserts a key into a sorted list, before the first key not below it. */
  function InsertKey(ks: seq<string>, k: string): (r: seq<string>)
    ensures multiset(r) == multiset(ks) + multiset{k}
  {
    if |ks| == 0 then [k]
    else if Less(ks[0], k) then
      assert ks == [ks[0]] + ks[1..];
      [ks[0]] + InsertKey(ks[1..], k)
    else [k] + ks
  }

  /** Insertion keeps a list sorted. */
  lemma {:induction false} InsertKeySorted(ks: seq<string>, k: string)
    requires Sorted(ks)
    ensures Sorted(InsertKey(ks, k))
  {
    if |ks| == 0 {
    } else if Less(ks[0], k) {
      var rest := InsertKey(ks[1..], k);
      InsertKeySorted(ks[1..], k);
      assert ks == [ks[0]] + ks[1..];
      forall j | 0 <= j < |rest|
        ensures LessEq(ks[0], rest[j])
      {
        assert rest[j] in multiset(rest);
        if rest[j] != k {
          assert rest[j] in multiset(ks[1..]);
          var p :| 0 <= p < |ks[1..]| && ks[1..][p] == rest[j];
          assert ks[p + 1] == rest[j];
        } else {
          LessAsymmetric(ks[0], k);
        }
      }
      assert InsertKey(ks, k) == [ks[0]] + rest;
    } else {
      forall j | 0 <= j < |ks|
        ensures LessEq(k, ks[j])
      {
        if j == 0 {
          LessIrreflexive(ks[0]);
        }
        LessEqTransitive(k, ks[0], ks[j]);
      }
      assert InsertKey(ks, k) == [k] + ks;
    }
  }

  /** Insertion of a new key keeps a list free of repeats. */
  lemma {:induction false} InsertKeyDistinct(ks: seq<string>, k: string)
    requires Distinct(ks) && k !in ks
    ensures Distinct(InsertKey(ks, k))
  {
    if |ks| > 0 && Less(ks[0], k) {
      var rest := InsertKey(ks[1..], k);
      InsertKeyDistinct(ks[1..], k);
      assert ks[0] !in ks[1..];
      forall j | 0 <= j < |rest|
        ensures ks[0] != rest[j]
      {
        assert rest[j] in multiset(ks[1..]) + multiset{k};
      }
      assert InsertKey(ks, k) == [ks[0]] + rest;
    }
  }

  /** `sort.Strings`: the keys in ascending order. */
  function SortStrings(ks: seq<string>): (r: seq<string>)
    ensures multiset(r) == multiset(ks) && |r| == |ks|
  {
    if |ks| == 0 then []
    else
      var init := ks[..|ks| - 1];
      var r := InsertKey(SortStrings(init), ks[|ks| - 1]);
      assert ks == init + [ks[|ks| - 1]];
      assert multiset(ks) == multiset(init) + multiset{ks[|ks| - 1]};
      assert |r| == |multiset(r)| == |multiset(ks)| == |ks|;
      r
  }

  /** Sorting gives a sorted list. */
  lemma {:induction false} SortStringsSorted(ks: seq<string>)
    ensures Sorted(SortStrings(ks))
    decreases |ks|
  {
    if |ks| > 0 {
      SortStringsSorted(ks[..|ks| - 1]);
      InsertKeySorted(SortStrings(ks[..|ks| - 1]), ks[|ks| - 1]);
    }
  }

  /** Sorting keys that are all different gives keys that are all different. */
  lemma {:induction false} SortStringsDistinct(ks: seq<string>)
    requires Distinct(ks)
    ensures Distinct(SortStrings(ks))
    decreases |ks|
  {
    if |ks| > 0 {
      var init := ks[..|ks| - 1];
      SortStringsDistinct(init);
      assert ks[|ks| - 1] !in init;
      assert ks[|ks| - 1] !in multiset(SortStrings(init));
      InsertKeyDistinct(SortStrings(init), ks[|ks| - 1]);
    }
  }

  /** The last of a sorted list is at least every element of it. */
  lemma SortedLast(a: seq<string>, x: string)
    requires Sorted(a) && x in a
    ensures LessEq(x, a[|a| - 1])
  {
    var i :| 0 <= i < |a| && a[i] == x;
    if i == |a| - 1 {
      LessIrreflexive(x);
    }
  }

  lemma PrefixMultiset(a: seq<string>)
    requires |a| > 0
    ensures multiset(a[..|a| - 1]) == multiset(a) - multiset{a[|a| - 1]}
  {
    assert a == a[..|a| - 1] + [a[|a| - 1]];
  }

  lemma SortedPrefix(a: seq<string>, n: nat)
    requires Sorted(a) && n <= |a|
    ensures Sorted(a[..n])
  {
    assert forall i :: 0 <= i < n ==> a[..n][i] == a[i];
  }

  /** Two sorted lists holding the same keys end with the same key. */
  lemma SortedSameLast(a: seq<string>, b: seq<string>)
    requires Sorted(a) && Sorted(b) && multiset(a) == multiset(b) && |a| > 0 && |b| > 0
    ensures a[|a| - 1] == b[|b| - 1]
  {
    var x, y := a[|a| - 1], b[|b| - 1];
    assert x in multiset(b) && y in multiset(a);
    SortedLast(b, x);
    SortedLast(a, y);
    if x != y {
      LessTotal(x, y);
    }
  }

  /** Two sorted lists holding the same keys are the same list. */
  lemma {:induction false} SortedUnique(a: seq<string>, b: seq<string>)
    requires Sorted(a) && Sorted(b) && multiset(a) == multiset(b)
    ensures a == b
    decreases |a|
  {
    assert |a| == |multiset(a)| == |b|;
    if |a| > 0 {
      var n := |a| - 1;
      SortedSameLast(a, b);
      PrefixMultiset(a);
      PrefixMultiset(b);
      SortedPrefix(a, n);
      SortedPrefix(b, n);
      SortedUnique(a[..n], b[..n]);
      assert a == a[..n] + [a[n]];
      assert b == b[..n] + [b[n]];
    }
  }

  /** Sorting depends only on which keys there are, not on the order they came in. */
  lemma SortStringsIgnoresOrder(a: seq<string>, b: seq<string>)
    requires multiset(a) == multiset(b)
    ensures SortStrings(a) == SortStrings(b)
  {
    SortStringsSorted(a);
    SortStringsSorted(b);
    SortedUnique(SortStrings(a), SortStrings(b));
  }

  /** Sorting a sorted list changes nothing. */
  lemma SortStringsOfSorted(ks: seq<string>)
    requires Sorted(ks)
    ensures SortStrings(ks) == ks
  {
    SortStringsSorted(ks);
    SortedUnique(SortStrings(ks), ks);
  }

  /** The first member with this key, or -1. */
  function IndexOfKey(ms: seq<Member>, k: string): (i: int)
    ensures -1 <= i < |ms|
    ensures i >= 0 ==> ms[i].key == k && forall j :: 0 <= j < i ==> ms[j].key != k
    ensures i == -1 <==> k !in KeysOf(ms)
  {
    if |ms| == 0 then -1
    else if ms[0].key == k then 0
    else
      var j := IndexOfKey(ms[1..], k);
      assert KeysOf(ms) == [ms[0].key] + KeysOf(ms[1..]);
      if j < 0 then -1 else j + 1
  }

  /** Go's `data[k]`: the value under the key, or nil when there is none. */
  function Lookup(ms: seq<Member>, k: string): (v: Json)
    ensures k !in KeysOf(ms) ==> v == JNull
    ensures k in KeysOf(ms) ==> exists i :: 0 <= i < |ms| && ms[i] == Member(k, v)
  {
    var i := IndexOfKey(ms, k);
    if i < 0 then JNull else ms[i].value
  }

  /** The value with every map reached through maps rebuilt in key order. */
  function SortValue(v: Json): (r: Json)
    ensures r.JObject? <==> v.JObject?
    ensures !v.JObject? ==> r == v
    decreases v, 2, 0
  {
    match v
    case JObject(ms) => JObject(SortMembers(ms))
    case _ => v
  }

  /** A map rebuilt by visiting its keys in ascending order. */
  function SortMembers(ms: seq<Member>): seq<Member>
    decreases JObject(ms), 1, 0
  {
    Arrange(SortStrings(KeysOf(ms)), ms)
  }

  /** One member per key of `ks`, in that order, holding the rebuilt value of `ms` under it. */
  function Arrange(ks: seq<string>, ms: seq<Member>): seq<Member>
    decreases JObject(ms), 0, |ks|
  {
    if |ks| == 0 then []
    else
      var k := ks[|ks| - 1];
      var i := IndexOfKey(ms, k);
      var v := if i < 0 then JNull else SortValue(ms[i].value);
      Arrange(ks[..|ks| - 1], ms) + [Member(k, v)]
  }

  /** `Arrange`, position by position. */
  lemma {:induction false} ArrangeAt(ks: seq<string>, ms: seq<Member>)
    ensures |Arrange(ks, ms)| == |ks|
    ensures forall j :: 0 <= j < |ks| ==> Arrange(ks, ms)[j] == Member(ks[j], SortValue(Lookup(ms, ks[j])))
    decreases |ks|
  {
    if |ks| > 0 {
      ArrangeAt(ks[..|ks| - 1], ms);
    }
  }

  /**
   * The rebuilt map has exactly the keys of the original, in ascending
   * order, and under each key the rebuilt value of the original.
   */
  lemma SortMembersContents(ms: seq<Member>)
    ensures KeysOf(SortMembers(ms)) == SortStrings(KeysOf(ms))
    ensures multiset(KeysOf(SortMembers(ms))) == multiset(KeysOf(ms))
    ensures Sorted(KeysOf(SortMembers(ms)))
    ensures forall k :: Lookup(SortMembers(ms), k) == SortValue(Lookup(ms, k))
  {
    var ks := SortStrings(KeysOf(ms));
    var r := SortMembers(ms);
    SortStringsSorted(KeysOf(ms));
    ArrangeAt(ks, ms);
    assert KeysOf(r) == ks;
    forall k
      ensures Lookup(r, k) == SortValue(Lookup(ms, k))
    {
      if k in KeysOf(r) {
        var i := IndexOfKey(r, k);
        assert r[i] == Member(ks[i], SortValue(Lookup(ms, ks[i])));
      } else {
        assert k !in multiset(KeysOf(ms));
      }
    }
  }

  /** In a map with distinct keys, the rebuilt map lists its keys strictly ascending. */
  lemma SortedKeysAscending(ms: seq<Member>)
    requires DistinctKeys(ms)
    ensures forall i, j :: 0 <= i < j < |SortMembers(ms)| ==> Less(SortMembers(ms)[i].key, SortMembers(ms)[j].key)
  {
    SortMembersContents(ms);
    SortStringsDistinct(KeysOf(ms));
    var ks := KeysOf(SortMembers(ms));
    forall i, j | 0 <= i < j < |ks|
      ensures Less(ks[i], ks[j])
    {
      assert LessEq(ks[i], ks[j]) && ks[i] != ks[j];
      LessTotal(ks[i], ks[j]);
    }
  }

  /** Rebuilding keeps every map a map: no key appears twice at any depth. */
  lemma {:induction false} SortValueWellFormed(v: Json)
    requires WellFormed(v)
    ensures WellFormed(SortValue(v))
    decreases v
  {
    match v
    case JObject(ms) =>
      var ks := SortStrings(KeysOf(ms));
      var r := SortMembers(ms);
      ArrangeAt(ks, ms);
      assert KeysOf(r) == ks;
      SortStringsDistinct(KeysOf(ms));
      forall j | 0 <= j < |r|
        ensures WellFormed(r[j].value)
      {
        assert r[j].value == SortValue(Lookup(ms, ks[j]));
        var i := IndexOfKey(ms, ks[j]);
        if i >= 0 {
          assert WellFormed(ms[i].value);
          SortValueWellFormed(ms[i].value);
        }
      }
      assert SortValue(v) == JObject(r);
    case _ =>
  }

  /** Rebuilding is idempotent: canonical text is already canonical. */
  lemma {:induction false} SortValueIdempotent(v: Json)
    ensures SortValue(SortValue(v)) == SortValue(v)
    decreases v
  {
    match v
    case JObject(ms) =>
      var r := SortMembers(ms);
      var ks := SortStrings(KeysOf(ms));
      SortMembersContents(ms);
      SortStringsOfSorted(ks);
      assert SortMembers(r) == Arrange(ks, r);
      ArrangeAt(ks, ms);
      ArrangeAt(ks, r);
      forall j | 0 <= j < |ks|
        ensures Arrange(ks, r)[j] == r[j]
      {
        var w := Lookup(ms, ks[j]);
        assert r[j] == Member(ks[j], SortValue(w));
        assert Lookup(r, ks[j]) == SortValue(w);
        var i := IndexOfKey(ms, ks[j]);
        if i >= 0 {
          assert w == ms[i].value;
          SortValueIdempotent(ms[i].value);
        }
      }
      assert Arrange(ks, r) == r;
    case _ =>
  }

  /**
   * Two values that differ only in the order of the members of their maps,
   * at any depth reached through maps.
   */
  predicate SameUpToOrder(a: Json, b: Json)
    decreases a
  {
    match a
    case JObject(ma) =>
      b.JObject? && multiset(KeysOf(ma)) == multiset(KeysOf(b.members))
      && forall i :: 0 <= i < |ma| ==> SameUpToOrder(ma[i].value, Lookup(b.members, ma[i].key))
    case _ => a == b
  }

  /** Under a key it holds, a map's lookup reads the member that `IndexOfKey` finds. */
  lemma LookupFound(ms: seq<Member>, k: string)
    requires k in KeysOf(ms)
    ensures 0 <= IndexOfKey(ms, k) && ms[IndexOfKey(ms, k)].key == k
    ensures Lookup(ms, k) == ms[IndexOfKey(ms, k)].value
  {
  }

  /** Arranging two maps by the same keys gives the same members when their rebuilt values agree key by key. */
  lemma ArrangeAgrees(ks: seq<string>, ma: seq<Member>, mb: seq<Member>)
    requires forall j :: 0 <= j < |ks| ==> SortValue(Lookup(ma, ks[j])) == SortValue(Lookup(mb, ks[j]))
    ensures Arrange(ks, ma) == Arrange(ks, mb)
  {
    ArrangeAt(ks, ma);
    ArrangeAt(ks, mb);
  }

  /** The canonical form does not depend on the iteration order of any map. */
  lemma {:induction false} SortValueIgnoresOrder(a: Json, b: Json)
    requires SameUpToOrder(a, b)
    ensures SortValue(a) == SortValue(b)
    decreases a
  {
    match a
    case JObject(ma) =>
      var mb := b.members;
      var ks := SortStrings(KeysOf(ma));
      SortStringsIgnoresOrder(KeysOf(ma), KeysOf(mb));
      forall j | 0 <= j < |ks|
        ensures SortValue(Lookup(ma, ks[j])) == SortValue(Lookup(mb, ks[j]))
      {
        assert ks[j] in multiset(KeysOf(ma));
        LookupFound(ma, ks[j]);
        var i := IndexOfKey(ma, ks[j]);
        SortValueIgnoresOrder(ma[i].value, Lookup(mb, ks[j]));
      }
      ArrangeAgrees(ks, ma, mb);
    case _ =>
  }

  /** The object `SortJson` works on: a decoded map, or an empty one when decoding fails. */
  function DecodedMap(codec: JsonCodec, jsonData: seq<byte>): (ms: seq<Member>)
    ensures DistinctKeys(ms)
    ensures var decoded := codec.unmarshal(jsonData);
            !(decoded.Some? && decoded.value.JObject?) ==> ms == []
    ensures var decoded := codec.unmarshal(jsonData);
            decoded.Some? && decoded.value.JObject? ==> ms == decoded.value.members
    ensures WellFormed(JObject(ms))
  {
    match codec.unmarshal(jsonData)
    case Some(JObject(ms)) => ms
    case _ => []
  }

  /** The canonical text of a document: its decoded map rebuilt in key order and encoded. */
  function CanonicalText(codec: JsonCodec, jsonData: seq<byte>): seq<byte>
  {
    codec.marshal(SortValue(JObject(DecodedMap(codec, jsonData))))
  }

  /** Input that does not decode to an object has the canonical text of the empty object. */
  lemma NonObjectIsEmpty(codec: JsonCodec, jsonData: seq<byte>)
    requires var decoded := codec.unmarshal(jsonData); !(decoded.Some? && decoded.value.JObject?)
    ensures CanonicalText(codec, jsonData) == codec.marshal(JObject([]))
  {
    assert SortStrings([]) == [];
  }

  /**
   * Two documents whose decoded maps differ only in member order have the
   * same canonical text, and canonicalising canonical text again (when the
   * codec decodes what it encoded) changes nothing.
   */
  lemma CanonicalTextProperties(codec: JsonCodec, x: seq<byte>, y: seq<byte>)
    ensures SameUpToOrder(JObject(DecodedMap(codec, x)), JObject(DecodedMap(codec, y)))
            ==> CanonicalText(codec, x) == CanonicalText(codec, y)
    ensures var decoded := codec.unmarshal(CanonicalText(codec, x));
            (decoded.Some? && decoded.value == SortValue(JObject(DecodedMap(codec, x))))
            ==> CanonicalText(codec, CanonicalText(codec, x)) == CanonicalText(codec, x)
  {
    if SameUpToOrder(JObject(DecodedMap(codec, x)), JObject(DecodedMap(codec, y))) {
      SortValueIgnoresOrder(JObject(DecodedMap(codec, x)), JObject(DecodedMap(codec, y)));
    }
    SortValueIdempotent(JObject(DecodedMap(codec, x)));
  }

  /**
   * Two values that differ only in the order of the members of their maps,
   * at every depth, arrays included: the values `json.Marshal` writes
   * alike, since it writes every map with its keys in ascending order.
   */
  predicate Equivalent(a: Json, b: Json)
    decreases a
  {
    match a
    case JObject(ma) =>
      b.JObject? && multiset(KeysOf(ma)) == multiset(KeysOf(b.members))
      && forall i :: 0 <= i < |ma| ==> Equivalent(ma[i].value, Lookup(b.members, ma[i].key))
    case JArray(xs) =>
      b.JArray? && |xs| == |b.items| && forall i :: 0 <= i < |xs| ==> Equivalent(xs[i], b.items[i])
    case _ => a == b
  }

  /** `json.Marshal` sorts the keys of every map it writes, so equivalent values encode alike. */
  ghost predicate MarshalSortsMaps(codec: JsonCodec)
  {
    forall a, b :: Equivalent(a, b) ==> codec.marshal(a) == codec.marshal(b)
  }

  /** In a map, the lookup of a member's own key reads that member. */
  lemma LookupOwnKey(ms: seq<Member>, i: int)
    requires DistinctKeys(ms) && 0 <= i < |ms|
    ensures Lookup(ms, ms[i].key) == ms[i].value
  {
    var k := IndexOfKey(ms, ms[i].key);
    assert KeysOf(ms)[i] == ms[i].key;
  }

  /** Every Go value is equivalent to itself. */
  lemma {:induction false} EquivalentReflexive(v: Json)
    requires WellFormed(v)
    ensures Equivalent(v, v)
    decreases v
  {
    match v
    case JObject(ms) =>
      forall i | 0 <= i < |ms|
        ensures Equivalent(ms[i].value, Lookup(ms, ms[i].key))
      {
        LookupOwnKey(ms, i);
        EquivalentReflexive(ms[i].value);
      }
    case JArray(xs) =>
      forall i | 0 <= i < |xs|
        ensures Equivalent(xs[i], xs[i])
      {
        EquivalentReflexive(xs[i]);
      }
    case _ =>
  }

  /** Rebuilding a Go value only reorders members: the result is equivalent to it. */
  lemma {:induction false} SortValueEquivalent(v: Json)
    requires WellFormed(v)
    ensures Equivalent(SortValue(v), v)
    decreases v
  {
    match v
    case JObject(ms) =>
      var ks := SortStrings(KeysOf(ms));
      var r := SortMembers(ms);
      SortMembersContents(ms);
      ArrangeAt(ks, ms);
      forall j | 0 <= j < |r|
        ensures Equivalent(r[j].value, Lookup(ms, r[j].key))
      {
        assert r[j] == Member(ks[j], SortValue(Lookup(ms, ks[j])));
        assert ks[j] in multiset(KeysOf(ms));
        LookupFound(ms, ks[j]);
        var i := IndexOfKey(ms, ks[j]);
        SortValueEquivalent(ms[i].value);
      }
      assert SortValue(v) == JObject(r);
    case _ =>
      EquivalentReflexive(v);
  }

  /**
   * With an encoder that sorts map keys itself, as `json.Marshal` does,
   * the canonical text is the plain encoding of the decoded map, and two
   * documents whose decoded maps differ only in member order, at any
   * depth and inside arrays too, have the same canonical text.
   */
  lemma CanonicalTextIgnoresOrderEverywhere(codec: JsonCodec, x: seq<byte>, y: seq<byte>)
    requires MarshalSortsMaps(codec)
    ensures CanonicalText(codec, x) == codec.marshal(JObject(DecodedMap(codec, x)))
    ensures Equivalent(JObject(DecodedMap(codec, x)), JObject(DecodedMap(codec, y)))
            ==> CanonicalText(codec, x) == CanonicalText(codec, y)
  {
    var vx, vy := JObject(DecodedMap(codec, x)), JObject(DecodedMap(codec, y));
    SortValueEquivalent(vx);
    SortValueEquivalent(vy);
    assert codec.marshal(SortValue(vx)) == codec.marshal(vx);
    assert codec.marshal(SortValue(vy)) == codec.marshal(vy);
  }

  /** `SortJsonKeys`: collects the keys, sorts them, and rebuilds the map, recursing into maps. */
  method SortJsonKeys(data: seq<Member>) returns (sortedMap: seq<Member>)
    ensures sortedMap == SortMembers(data)
    decreases JObject(data)
  {
    var keys: seq<string> := [];
    for i := 0 to |data|
      invariant keys == KeysOf(data[..i])
    {
      assert KeysOf(data[..i + 1]) == KeysOf(data[..i]) + [data[i].key];
      keys := keys + [data[i].key];
    }
    assert data[..|data|] == data;
    keys := SortStrings(keys);
    sortedMap := [];
    for j := 0 to |keys|
      invariant sortedMap == Arrange(keys[..j], data)
    {
      var k := keys[j];
      var i := IndexOfKey(data, k);
      var value := if i < 0 then JNull else data[i].value;
      assert keys[..j + 1][..j] == keys[..j];
      if value.JObject? {
        assert value == JObject(value.members);
        var nested := SortJsonKeys(value.members);
        sortedMap := sortedMap + [Member(k, JObject(nested))];
      } else {
        sortedMap := sortedMap + [Member(k, value)];
      }
    }
    assert keys[..|keys|] == keys;
  }

  /** `SortJson`: decode, rebuild in key order, encode. */
  method SortJson(jsonData: seq<byte>, codec: JsonCodec) returns (sortedJsonData: seq<byte>)
    ensures sortedJsonData == CanonicalText(codec, jsonData)
  {
    var jsonMap: seq<Member> := [];
    match codec.unmarshal(jsonData) {
      case Some(JObject(ms)) =>
        jsonMap := ms;
      case _ =>
    }
    var sortedJsonMap := SortJsonKeys(jsonMap);
    sortedJsonData := codec.marshal(JObject(sortedJsonMap));
  }
}
