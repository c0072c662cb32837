/** Keys that come more than once: the first gives the place, the last gives the value. */
module StructuredFieldKeys {
  import opened Bytes
  import opened StructuredFields
  import opened Sequences

  function Keys<T>(entries: Entries<T>): (ks: seq<string>)
    ensures |ks| == |entries|
    ensures forall i :: 0 <= i < |ks| ==> ks[i] == entries[i].0
  {
    seq(|entries|, i requires 0 <= i < |entries| => entries[i].0)
  }

  /** Every key once, in the order in which they first come. */
  function FirstOccurrences(ks: seq<string>): (r: seq<string>)
    ensures forall k :: k in r <==> k in ks
    ensures Distinct(r)
  {
    if ks == [] then []
    else
      var init, last := ks[..|ks| - 1], ks[|ks| - 1];
      assert ks == init + [last];
      FirstOccurrences(init) + if last in init then [] else [last]
  }

  function Lookup<T>(entries: Entries<T>, key: string): Option<T> {
    if entries == [] then None
    else if entries[0].0 == key then Some(entries[0].1)
    else Lookup(entries[1..], key)
  }

  /** The value that was given to a key last. */
  function LastValue<T>(raw: Entries<T>, key: string): Option<T> {
    if raw == [] then None
    else if raw[|raw| - 1].0 == key then Some(raw[|raw| - 1].1)
    else LastValue(raw[..|raw| - 1], key)
  }

  lemma KeysCons<T>(e: (string, T), tail: Entries<T>)
    ensures Keys([e] + tail) == [e.0] + Keys(tail)
  {
  }

  function WithKey(ks: seq<string>, key: string): seq<string> {
    ks + if key in ks then [] else [key]
  }

  lemma WithKeyCons(k: string, ks: seq<string>, key: string)
    ensures WithKey([k] + ks, key) == if k == key then [k] + ks else [k] + WithKey(ks, key)
  {
    if k == key {
      assert ([k] + ks)[0] == key;
    }
  }

  lemma {:induction false} UpsertKeys<T>(entries: Entries<T>, key: string, value: T)
    ensures Keys(Upsert(entries, key, value)) == WithKey(Keys(entries), key)
  {
    if entries == [] {
      assert Keys([(key, value)]) == [key];
    } else {
      var head, tail := entries[0], entries[1..];
      UpsertKeys(tail, key, value);
      hide WithKey;
      assert entries == [head] + tail;
      KeysCons(head, tail);
      WithKeyCons(head.0, Keys(tail), key);
      KeysCons((key, value), tail);
      KeysCons(head, Upsert(tail, key, value));
    }
  }

  lemma {:induction false} UpsertLookup<T>(entries: Entries<T>, key: string, value: T, k: string)
    ensures Lookup(Upsert(entries, key, value), k) == if k == key then Some(value) else Lookup(entries, k)
  {
    if entries != [] {
      var tail := entries[1..];
      if entries[0].0 == key {
        assert ([(key, value)] + tail)[1..] == tail;
      } else {
        UpsertLookup(tail, key, value, k);
        assert ([entries[0]] + Upsert(tail, key, value))[1..] == Upsert(tail, key, value);
      }
    }
  }

  /** The place of a key is where it came first. */
  lemma {:induction false} MergedKeys<T>(raw: Entries<T>)
    ensures Keys(Merged(raw)) == FirstOccurrences(Keys(raw))
    decreases |raw|
  {
    if raw != [] {
      var init, last := raw[..|raw| - 1], raw[|raw| - 1];
      MergedKeys(init);
      UpsertKeys(Merged(init), last.0, last.1);
      assert Keys(raw)[..|raw| - 1] == Keys(init);
    }
  }

  /** The value of a key is the one that came last. */
  lemma {:induction false} MergedValues<T>(raw: Entries<T>, key: string)
    ensures Lookup(Merged(raw), key) == LastValue(raw, key)
    decreases |raw|
  {
    if raw != [] {
      var init, last := raw[..|raw| - 1], raw[|raw| - 1];
      MergedValues(init, key);
      UpsertLookup(Merged(init), last.0, last.1, key);
    }
  }

  lemma {:induction false} UpsertNew<T>(entries: Entries<T>, key: string, value: T)
    requires key !in Keys(entries)
    ensures Upsert(entries, key, value) == entries + [(key, value)]
  {
    if entries != [] {
      assert Keys(entries)[0] == entries[0].0;
      assert forall i :: 0 <= i < |entries| - 1 ==> Keys(entries[1..])[i] == Keys(entries)[i + 1];
      UpsertNew(entries[1..], key, value);
    }
  }

  /** Merging changes nothing exactly if no key comes twice. */
  lemma {:induction false} MergedFixed<T>(raw: Entries<T>)
    ensures Merged(raw) == raw <==> Distinct(Keys(raw))
    decreases |raw|
  {
    MergedKeys(raw);
    if raw != [] && Distinct(Keys(raw)) {
      var init, last := raw[..|raw| - 1], raw[|raw| - 1];
      assert Keys(raw) == Keys(init) + [last.0];
      assert forall i :: 0 <= i < |init| ==> Keys(init)[i] == Keys(raw)[i];
      assert Keys(raw)[|raw| - 1] == last.0;
      hide Upsert, FirstOccurrences;
      MergedFixed(init);
      UpsertNew(init, last.0, last.1);
      assert raw == init + [last];
    }
  }

  predicate All<T>(entries: Entries<T>, p: ((string, T)) -> bool) {
    forall i :: 0 <= i < |entries| ==> p(entries[i])
  }

  lemma AllOfNone<T>(p: ((string, T)) -> bool)
    ensures All([], p)
  {
  }

  lemma AllWithFirst<T>(first: (string, T), others: Entries<T>, p: ((string, T)) -> bool)
    requires p(first) && All(others, p)
    ensures All([first] + others, p)
  {
  }

  lemma {:induction false} UpsertAll<T>(entries: Entries<T>, key: string, value: T, p: ((string, T)) -> bool)
    requires All(entries, p) && p((key, value))
    ensures All(Upsert(entries, key, value), p)
  {
    if entries != [] && entries[0].0 != key {
      UpsertAll(entries[1..], key, value, p);
    }
  }

  lemma {:induction false} MergedAll<T>(raw: Entries<T>, p: ((string, T)) -> bool)
    requires All(raw, p)
    ensures All(Merged(raw), p)
    decreases |raw|
  {
    if raw != [] {
      var init, last := raw[..|raw| - 1], raw[|raw| - 1];
      MergedAll(init, p);
      UpsertAll(Merged(init), last.0, last.1, p);
    }
  }
}
