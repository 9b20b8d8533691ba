/** JavaScript's `Map` from strings to strings: entries remember the order in
    which their keys were first inserted, and `set` on a present key replaces
    the value in place. */
module OrderedMaps {
  import opened Wrappers

  /** The keys in insertion order and the entries. */
  datatype OMap = OMap(keys: seq<string>, entries: map<string, string>)

  /** `new Map()`. */
  function Empty(): OMap {
    OMap([], map[])
  }

  /** Keys are listed once each, and exactly the keys with entries are
      listed. */
  ghost predicate Valid(m: OMap) {
    (forall i, j :: 0 <= i < j < |m.keys| ==> m.keys[i] != m.keys[j])
    && (forall k :: k in m.entries <==> k in m.keys)
  }

  /** `m.has(k)`. */
  predicate Has(m: OMap, k: string) {
    k in m.entries
  }

  /** `m.get(k)`, `None` for `undefined`. */
  function Get(m: OMap, k: string): Option<string> {
    if k in m.entries then Some(m.entries[k]) else None
  }

  /** `m.set(k, v)`: `k` now maps to `v` and nothing else changes; a new key
      goes last, a present one keeps its place. */
  function Put(m: OMap, k: string, v: string): (r: OMap)
    ensures Valid(m) ==> Valid(r)
    ensures Get(r, k) == Some(v)
    ensures forall k' :: k' != k ==> Get(r, k') == Get(m, k')
    ensures Valid(m) && Has(m, k) ==> r.keys == m.keys
    ensures Valid(m) && !Has(m, k) ==> r.keys == m.keys + [k]
  {
    OMap(if k in m.entries then m.keys else m.keys + [k], m.entries[k := v])
  }

  // --- Maps built by a sequence of `set` calls -------------------------------

  /** The map after `set(key, value)` for each present entry, in order. */
  function FromEntries(es: seq<Option<(string, string)>>): OMap
    decreases |es|
  {
    if es == [] then Empty()
    else
      var m := FromEntries(es[..|es| - 1]);
      match es[|es| - 1]
      case None => m
      case Some(e) => Put(m, e.0, e.1)
  }

  /** The keys of the present entries, each once, in order of first
      occurrence. */
  function KeysOf(es: seq<Option<(string, string)>>): seq<string>
    decreases |es|
  {
    if es == [] then []
    else
      var ks := KeysOf(es[..|es| - 1]);
      match es[|es| - 1]
      case None => ks
      case Some(e) => if e.0 in ks then ks else ks + [e.0]
  }

  /** Some entry among `es` has key `k`. */
  ghost predicate Occurs(es: seq<Option<(string, string)>>, k: string) {
    exists i :: 0 <= i < |es| && es[i].Some? && es[i].value.0 == k
  }

  /** The map is valid and its key order is the order of first insertion. */
  lemma {:induction false} FromEntriesKeys(es: seq<Option<(string, string)>>)
    ensures Valid(FromEntries(es))
    ensures FromEntries(es).keys == KeysOf(es)
    decreases |es|
  {
    if es != [] {
      FromEntriesKeys(es[..|es| - 1]);
    }
  }

  /** A key is listed exactly when some entry has it. */
  lemma {:induction false} KeysOfOccurs(es: seq<Option<(string, string)>>, k: string)
    ensures k in KeysOf(es) <==> Occurs(es, k)
    decreases |es|
  {
    if es != [] {
      var front := es[..|es| - 1];
      KeysOfOccurs(front, k);
      assert forall j :: 0 <= j < |front| ==> front[j] == es[j];
      var last := es[|es| - 1];
      assert Occurs(es, k) <==> Occurs(front, k) || (last.Some? && last.value.0 == k);
    }
  }

  /** Later entries only add keys after the ones already listed: the keys of
      a prefix of the entries are a prefix of the keys. */
  lemma {:induction false} KeysOfPrefix(es: seq<Option<(string, string)>>, n: nat)
    requires n <= |es|
    ensures KeysOf(es[..n]) <= KeysOf(es)
    decreases |es|
  {
    if n < |es| {
      KeysOfPrefix(es[..|es| - 1], n);
      assert es[..|es| - 1][..n] == es[..n];
    } else {
      assert es[..n] == es;
    }
  }

  /** The value of a key is the one of its last entry: later entries
      overwrite earlier ones. */
  lemma {:induction false} FromEntriesLast(es: seq<Option<(string, string)>>, i: nat)
    requires i < |es| && es[i].Some?
    requires forall j :: i < j < |es| && es[j].Some? ==> es[j].value.0 != es[i].value.0
    ensures Get(FromEntries(es), es[i].value.0) == Some(es[i].value.1)
    decreases |es|
  {
    var front := es[..|es| - 1];
    if i < |front| {
      assert front[i] == es[i];
      assert forall j :: i < j < |front| ==> front[j] == es[j];
      FromEntriesLast(front, i);
    }
  }

  /** A key no entry has stays absent. */
  lemma {:induction false} FromEntriesAbsent(es: seq<Option<(string, string)>>, k: string)
    requires !Occurs(es, k)
    ensures Get(FromEntries(es), k) == None
    decreases |es|
  {
    if es != [] {
      var front := es[..|es| - 1];
      assert forall j :: 0 <= j < |front| ==> front[j] == es[j];
      FromEntriesAbsent(front, k);
    }
  }

  /** Every stored pair comes from some entry. */
  lemma {:induction false} FromEntriesFrom(es: seq<Option<(string, string)>>, k: string)
    requires Has(FromEntries(es), k)
    ensures exists i :: 0 <= i < |es| && es[i] == Some((k, FromEntries(es).entries[k]))
    decreases |es|
  {
    var front := es[..|es| - 1];
    var last := es[|es| - 1];
    var v := FromEntries(es).entries[k];
    if last.Some? && last.value.0 == k {
      assert es[|es| - 1] == Some((k, v));
    } else {
      assert Get(FromEntries(front), k) == Some(v);
      FromEntriesFrom(front, k);
      var i :| 0 <= i < |front| && front[i] == Some((k, v));
      assert es[i] == front[i];
    }
  }

  /** One more entry is one more `set`. */
  lemma FromEntriesSnoc(es: seq<Option<(string, string)>>, e: Option<(string, string)>)
    ensures FromEntries(es + [e]) == match e case None => FromEntries(es) case Some(p) => Put(FromEntries(es), p.0, p.1)
  {
    assert (es + [e])[..|es|] == es;
  }
}
