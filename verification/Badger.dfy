/** The local storage engine as its callers see it: a map from keys to items,
    where an item carries an absolute expiry in Unix seconds (0 = forever). */
module Badger {

  datatype Option<+T> = None | Some(value: T)

  type byte = x: int | 0 <= x < 256

  type Bytes = seq<byte>

  const TWO_TO_THE_64: int := 0x1_0000_0000_0000_0000

  type uint64 = x: int | 0 <= x < TWO_TO_THE_64

  datatype Item = Item(value: Bytes, expiresAt: uint64)

  type Store = map<Bytes, Item>

  predicate Expired(item: Item, now: nat) {
    item.expiresAt != 0 && item.expiresAt <= now
  }

  function Lookup(s: Store, k: Bytes): Option<Item> {
    if k in s then Some(s[k]) else None
  }

  /** What a read transaction returns for k when its clock shows `now`. */
  function VisibleAt(s: Store, k: Bytes, now: nat): Option<Bytes> {
    if k in s && !Expired(s[k], now) then Some(s[k].value) else None
  }

  /** Compaction and backup may leave out items that have expired by `now`. */
  ghost predicate Thinned(s: Store, t: Store, now: nat) {
    && (forall k :: k in t ==> k in s && t[k] == s[k])
    && (forall k :: k in s && k !in t ==> Expired(s[k], now))
  }

  /** `have` stands for `want`, except that an item expired by `horizon` may be gone. */
  predicate Stands(have: Option<Item>, want: Option<Item>, horizon: nat) {
    have == want || (have.None? && want.Some? && Expired(want.value, horizon))
  }

  lemma StandsIsVisible(s: Store, t: Store, k: Bytes, horizon: nat, now: nat)
    requires Stands(Lookup(s, k), Lookup(t, k), horizon)
    requires horizon <= now
    ensures VisibleAt(s, k, now) == VisibleAt(t, k, now)
  {
  }

}
