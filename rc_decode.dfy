/**
 * Model of `deserialize_map_with` and `RefCountingVisitor::visit_map`: decode
 * a map of `id -> identifiable`, rejecting any entry whose key is not the id
 * its value carries, passing every accepted entry through a caller-supplied
 * mutator and inserting it into an ordered map.
 *
 * The deserializer's map access is modelled as the sequence of what its
 * successive `next_entry` calls return: each element is a decoded entry or
 * the error that decoding it raised, and the end of the sequence is the end
 * of the map.  The `BTreeMap` is a Dafny `map` (its ordering of keys is not
 * observable in what is modelled here).
 */
module RcDecode {
  import opened Wrappers

  /** What a failed decode reports. */
  datatype DecodeError<K, E> =
    | NotAMap
    | EntryError(cause: E)
    | Inconsistent(key: K, itemId: K)

  /** One `next_entry` call: a decoded `(key, value)` pair or a decoding error. */
  datatype Entry<K, V, E> = Decoded(key: K, value: V) | Failed(cause: E)

  /** What the deserializer offers the visitor. */
  datatype Input<K, V, E> = NotMap | Map(entries: seq<Entry<K, V, E>>)

  /**
   * The decode as a value, entry by entry, onto the accumulator `acc`:
   * stop at the first entry error or inconsistent entry, else apply `f` and
   * insert.
   */
  function Decode<K(==), V, E>(entries: seq<Entry<K, V, E>>, id: V -> K, f: (K, V) -> (K, V),
                           acc: map<K, V>): Result<map<K, V>, DecodeError<K, E>>
  {
    if entries == [] then Ok(acc)
    else match entries[0]
      case Failed(e) => Err(EntryError(e))
      case Decoded(k, v) =>
        if k != id(v) then Err(Inconsistent(k, id(v)))
        else
          var (k', v') := f(k, v);
          Decode(entries[1..], id, f, acc[k' := v'])
  }

  /**
   * `RefCountingVisitor::visit_map`: the `while let` loop over the entries,
   * with an early return on the first error, into the accumulator map.
   */
  method VisitMap<K(==), V, E>(entries: seq<Entry<K, V, E>>, id: V -> K, f: (K, V) -> (K, V),
                           start: map<K, V>)
    returns (r: Result<map<K, V>, DecodeError<K, E>>)
    ensures r == Decode(entries, id, f, start)
  {
    var acc := start;
    var i := 0;
    while i < |entries|
      invariant 0 <= i <= |entries|
      invariant Decode(entries, id, f, start) == Decode(entries[i..], id, f, acc)
    {
      assert entries[i..][1..] == entries[i + 1..];
      match entries[i] {
        case Failed(e) =>
          return Err(EntryError(e));
        case Decoded(key, value) =>
          if key != id(value) {
            return Err(Inconsistent(key, id(value)));
          }
          var (key', value') := f(key, value);
          acc := acc[key' := value'];
      }
      i := i + 1;
    }
    r := Ok(acc);
  }

  /** `deserialize_map_with`: visit the map with an empty accumulator. */
  method DeserializeMapWith<K(==), V, E>(input: Input<K, V, E>, id: V -> K, f: (K, V) -> (K, V))
    returns (r: Result<map<K, V>, DecodeError<K, E>>)
    ensures input.NotMap? ==> r == Err(NotAMap)
    ensures input.Map? ==> r == Decode(input.entries, id, f, map[])
  {
    match input
    case NotMap =>
      r := Err(NotAMap);
    case Map(entries) =>
      r := VisitMap(entries, id, f, map[]);
  }

  /** Every entry of `entries` decoded and carries the id of its value. */
  ghost predicate AllConsistent<K, V, E>(entries: seq<Entry<K, V, E>>, id: V -> K)
  {
    forall i :: 0 <= i < |entries| ==> Consistent(entries[i], id)
  }

  /** The test `visit_map` makes on one entry, on the key and value as decoded. */
  predicate Consistent<K(==), V, E>(e: Entry<K, V, E>, id: V -> K)
  {
    e.Decoded? && e.key == id(e.value)
  }

  /** The map that inserting every entry, after `f`, in order, produces. */
  function InsertAll<K(==), V, E>(entries: seq<Entry<K, V, E>>, f: (K, V) -> (K, V), acc: map<K, V>): map<K, V>
    requires forall i :: 0 <= i < |entries| ==> entries[i].Decoded?
  {
    if entries == [] then acc
    else
      var (k', v') := f(entries[0].key, entries[0].value);
      InsertAll(entries[1..], f, acc[k' := v'])
  }

  /**
   * The decode succeeds exactly when every entry decoded and is consistent,
   * and then its map is every entry, passed through `f` once and in input
   * order, inserted into the accumulator.
   */
  lemma {:induction false} DecodeSucceedsIff<K, V, E>(entries: seq<Entry<K, V, E>>, id: V -> K,
                                                      f: (K, V) -> (K, V), acc: map<K, V>)
    ensures Decode(entries, id, f, acc).Ok? <==> AllConsistent(entries, id)
    ensures AllConsistent(entries, id) ==> Decode(entries, id, f, acc) == Ok(InsertAll(entries, f, acc))
  {
    if entries != [] {
      if Consistent(entries[0], id) {
        var (k', v') := f(entries[0].key, entries[0].value);
        DecodeSucceedsIff(entries[1..], id, f, acc[k' := v']);
        if AllConsistent(entries[1..], id) {
          forall i | 0 <= i < |entries| ensures Consistent(entries[i], id) {
            if i > 0 { assert entries[i] == entries[1..][i - 1]; }
          }
        }
      }
    }
  }

  /**
   * The first entry that fails to decode, or whose key is not its value's
   * id, ends the decode with that error: no map is returned, and nothing
   * after it is looked at.
   */
  lemma {:induction false} FirstBadEntryAborts<K, V, E>(entries: seq<Entry<K, V, E>>, id: V -> K,
                                                        f: (K, V) -> (K, V), acc: map<K, V>, j: nat)
    requires j < |entries| && AllConsistent(entries[..j], id) && !Consistent(entries[j], id)
    ensures entries[j].Failed? ==> Decode(entries, id, f, acc) == Err(EntryError(entries[j].cause))
    ensures entries[j].Decoded? ==>
              Decode(entries, id, f, acc) == Err(Inconsistent(entries[j].key, id(entries[j].value)))
  {
    if j > 0 {
      assert Consistent(entries[..j][0], id);
      var (k', v') := f(entries[0].key, entries[0].value);
      assert entries[1..][..j - 1] == entries[..j][1..];
      assert entries[1..][j - 1] == entries[j];
      FirstBadEntryAborts(entries[1..], id, f, acc[k' := v'], j - 1);
    }
  }

  /**
   * The consistency test reads the entries as decoded: whether the decode
   * succeeds does not depend on the mutator, even one that rewrites keys.
   */
  lemma CheckPrecedesMutator<K, V, E>(entries: seq<Entry<K, V, E>>, id: V -> K,
                                      f: (K, V) -> (K, V), g: (K, V) -> (K, V), acc: map<K, V>, acc': map<K, V>)
    ensures Decode(entries, id, f, acc).Ok? == Decode(entries, id, g, acc').Ok?
  {
    DecodeSucceedsIff(entries, id, f, acc);
    DecodeSucceedsIff(entries, id, g, acc');
  }

  /**
   * Plain insertion: a key is in the result exactly when it is in the
   * accumulator or is the mutated key of some entry, and it maps to the
   * mutated value of the LAST such entry (a later entry overwrites an
   * earlier one), or to its accumulator value when no entry has it.
   */
  lemma {:induction false} InsertAllLastWins<K, V, E>(entries: seq<Entry<K, V, E>>, f: (K, V) -> (K, V),
                                                      acc: map<K, V>, k: K)
    requires forall i :: 0 <= i < |entries| ==> entries[i].Decoded?
    ensures k in InsertAll(entries, f, acc) <==>
              k in acc || exists i :: 0 <= i < |entries| && f(entries[i].key, entries[i].value).0 == k
    ensures forall j :: 0 <= j < |entries| && f(entries[j].key, entries[j].value).0 == k &&
                        (forall i :: j < i < |entries| ==> f(entries[i].key, entries[i].value).0 != k) ==>
              InsertAll(entries, f, acc)[k] == f(entries[j].key, entries[j].value).1
    ensures (forall i :: 0 <= i < |entries| ==> f(entries[i].key, entries[i].value).0 != k) && k in acc ==>
              InsertAll(entries, f, acc)[k] == acc[k]
  {
    if entries != [] {
      var (k', v') := f(entries[0].key, entries[0].value);
      var rest := entries[1..];
      InsertAllLastWins(rest, f, acc[k' := v'], k);
      assert forall i :: 0 < i < |entries| ==> entries[i] == rest[i - 1];
      if k in InsertAll(entries, f, acc) && k !in acc && k != k' {
        var i :| 0 <= i < |rest| && f(rest[i].key, rest[i].value).0 == k;
        assert entries[i + 1] == rest[i];
      }
      forall j | 0 <= j < |entries| && f(entries[j].key, entries[j].value).0 == k &&
                 (forall i :: j < i < |entries| ==> f(entries[i].key, entries[i].value).0 != k)
        ensures InsertAll(entries, f, acc)[k] == f(entries[j].key, entries[j].value).1
      {
        if j > 0 {
          assert rest[j - 1] == entries[j];
          assert forall i :: j - 1 < i < |rest| ==> f(rest[i].key, rest[i].value).0 != k by {
            forall i | j - 1 < i < |rest| ensures f(rest[i].key, rest[i].value).0 != k {
              assert rest[i] == entries[i + 1];
            }
          }
        } else {
          assert forall i :: 0 <= i < |rest| ==> f(rest[i].key, rest[i].value).0 != k by {
            forall i | 0 <= i < |rest| ensures f(rest[i].key, rest[i].value).0 != k {
              assert rest[i] == entries[i + 1];
            }
          }
        }
      }
    }
  }
}
