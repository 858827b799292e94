/**
 * The Fabric world state as the contract sees it through the state API of
 * its chaincode library: entries addressed by the keys of `Data`, with
 * `Insert` (refuses an existing key), `Put` (insert or overwrite), `Get`
 * (refuses a missing key) and `Exists`.
 *
 * Writes compute the key from the value, as the library does by calling the
 * value's `Key()` method, so a ledger written only through `Insert` and
 * `Put` is well keyed: every entry sits under its own value's key.
 */
module Ledger {
  import opened Errors
  import opened Data

  /** The text of the library's error for a missing entry. */
  const KEY_NOT_FOUND := "state entry not found"
  /** The text of the library's error for inserting over an existing entry. */
  const KEY_ALREADY_EXISTS := "state key already exists"

  /** What an entry holds: one of the four stored entities. */
  datatype Value =
    | LatestDoc(doc: DidDoc)
    | SnapshotDoc(snapshot: DidDocWithVersionId)
    | StatusEntry(record: StatusRecord)
    | VcMetaEntry(meta: VcMeta)

  /** The key a write of `v` goes to: `v.Key()`. */
  function KeyOf(v: Value): LedgerKey
  {
    match v
    case LatestDoc(d) => d.Key()
    case SnapshotDoc(w) => w.Key()
    case StatusEntry(r) => r.Key()
    case VcMetaEntry(m) => m.Key()
  }

  type Store = map<LedgerKey, Value>

  predicate WellKeyed(s: Store)
  {
    forall k :: k in s ==> KeyOf(s[k]) == k
  }

  /** `State().Get(key)`. */
  function Get(s: Store, k: LedgerKey): (r: Result<Value>)
    ensures r.Ok? <==> k in s
    ensures r.Ok? ==> r.value == s[k]
    ensures r.Err? ==> r.error == Plain(KEY_NOT_FOUND)
  {
    if k in s then Ok(s[k]) else Err(Plain(KEY_NOT_FOUND))
  }

  /** `State().Exists(key)`. */
  function Exists(s: Store, k: LedgerKey): (b: bool)
    ensures b <==> Get(s, k).Ok?
  {
    k in s
  }

  class WorldState {
    var entries: Store

    /** An empty ledger. */
    constructor ()
      ensures entries == map[]
    {
      entries := map[];
    }

    /** `State().Insert(value)`: refuses a key that is already present. */
    method Insert(v: Value) returns (out: Outcome)
      modifies this
      ensures KeyOf(v) in old(entries) ==> out == Failure(Plain(KEY_ALREADY_EXISTS)) && entries == old(entries)
      ensures KeyOf(v) !in old(entries) ==> out == Success && entries == old(entries)[KeyOf(v) := v]
      ensures old(WellKeyed(entries)) ==> WellKeyed(entries)
    {
      var k := KeyOf(v);
      if k in entries {
        return Failure(Plain(KEY_ALREADY_EXISTS));
      }
      entries := entries[k := v];
      out := Success;
    }

    /** `State().Put(value)`: inserts or overwrites. */
    method Put(v: Value)
      modifies this
      ensures entries == old(entries)[KeyOf(v) := v]
      ensures old(WellKeyed(entries)) ==> WellKeyed(entries)
    {
      entries := entries[KeyOf(v) := v];
    }
  }
}
