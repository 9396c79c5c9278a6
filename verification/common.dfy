/** Shared vocabulary: JavaScript's `null`/`undefined` versus a present
    value, and "nothing else changed" for keyed collections. */
module Common {

  /** `None` stands for `null` (or `undefined`), `Some(v)` for a present value. */
  datatype Option<+T> = None | Some(value: T)

  /** Two mappings agree on every key other than `key`: no other key is
      added, removed or changed. */
  predicate OthersUnchanged<T(==)>(m: map<string, T>, m': map<string, T>, key: string) {
    && (forall k :: k in m && k != key ==> k in m' && m'[k] == m[k])
    && (forall k :: k in m' && k != key ==> k in m)
  }
}
