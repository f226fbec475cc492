/**
 The two free helper functions of core/util.php: the normalisation step of
 `_p2p_meta_sql_helper`, which turns a key/value filter into a list of meta
 query clauses, and `_p2p_pluck`, which takes one entry out of an array
 passed by reference.
 */
module UtilFunctions {
  import opened Php

  // ---------------------------------------------------------------------------
  // _p2p_meta_sql_helper, up to the meta query handed to the SQL builder

  /** `compact('key', 'value')`: the clause for one key/value pair of the filter. */
  function Compact(key: Key, value: Value): (clause: Value)
    ensures clause.Arr? && |clause.entries| == 2 && DistinctKeys(clause.entries)
    ensures Keys(clause.entries) == {StrKey("key"), StrKey("value")}
    ensures Read(clause.entries, StrKey("key")) == KeyValue(key)
    ensures Read(clause.entries, StrKey("value")) == value
  {
    var es := [Entry(StrKey("key"), KeyValue(key)), Entry(StrKey("value"), value)];
    assert StrKey("key") != StrKey("value") by { assert |"key"| != |"value"|; }
    assert IndexOf(es, StrKey("value")) == 1;
    assert es[0] in es && es[1] in es;
    Arr(es)
  }

  /** The key/value pair a clause stands for: its "key" entry (an integer or a string) and its "value" entry. */
  function ClausePair(clause: Value): Option<Entry> {
    if !clause.Arr? then None
    else match Read(clause.entries, StrKey("key"))
      case Int(i) => Some(Entry(IntKey(i), Read(clause.entries, StrKey("value"))))
      case Str(s) => Some(Entry(StrKey(s), Read(clause.entries, StrKey("value"))))
      case _ => None
  }

  /** A clause gives back the pair it was made from. */
  lemma ClauseRoundTrip(key: Key, value: Value)
    ensures ClausePair(Compact(key, value)) == Some(Entry(key, value))
  {
    var es := Compact(key, value).entries;
    assert IndexOf(es, StrKey("key")) == 0;
    assert IndexOf(es, StrKey("value")) == 1 by {
      assert |"key"| != |"value"|;
    }
  }

  /** The array PHP builds by `$q[] = ...` from an empty array: keys 0, 1, 2, ... in order. */
  predicate IsList(q: seq<Entry>) {
    forall i :: 0 <= i < |q| ==> q[i].key == IntKey(i)
  }

  /**
   The meta query of a filter: a filter that already has a clause at index 0
   is a list of clauses and is used as given; otherwise each key/value pair,
   in the filter's order, becomes one clause.
   */
  function MetaQuery(data: seq<Entry>): (q: seq<Entry>)
    ensures IsSet(data, IntKey(0)) ==> q == data
    ensures !IsSet(data, IntKey(0)) ==>
              IsList(q) && |q| == |data| &&
              forall i :: 0 <= i < |q| ==> ClausePair(q[i].val) == Some(data[i])
    // each clause is exactly the two-entry array `array('key' => ..., 'value' => ...)`
    ensures !IsSet(data, IntKey(0)) ==>
              forall i :: 0 <= i < |q| ==>
                q[i].val.Arr? && |q[i].val.entries| == 2 &&
                Keys(q[i].val.entries) == {StrKey("key"), StrKey("value")}
  {
    if IsSet(data, IntKey(0)) then data
    else
      var q := seq(|data|, i requires 0 <= i < |data| => Entry(IntKey(i), Compact(data[i].key, data[i].val)));
      assert forall i :: 0 <= i < |q| ==> ClausePair(q[i].val) == Some(data[i]) by {
        forall i | 0 <= i < |q| ensures ClausePair(q[i].val) == Some(data[i]) {
          ClauseRoundTrip(data[i].key, data[i].val);
        }
      }
      q
  }

  /** Normalising a meta query a second time leaves it as it is. */
  lemma MetaQueryIdempotent(data: seq<Entry>)
    ensures MetaQuery(MetaQuery(data)) == MetaQuery(data)
  {
    var q := MetaQuery(data);
    if !IsSet(data, IntKey(0)) && q != [] {
      assert q[0].key == IntKey(0);
      assert IndexOf(q, IntKey(0)) == 0;
      assert q[0].val.Arr?;
    }
  }

  /**
   `_p2p_meta_sql_helper` up to the call of the SQL builder: keep a list of
   clauses, or build one clause per key/value pair with a `foreach`.
   */
  method NormaliseMetaQuery(data: seq<Entry>) returns (metaQuery: seq<Entry>)
    ensures metaQuery == MetaQuery(data)
  {
    if IsSet(data, IntKey(0)) {
      metaQuery := data;
    } else {
      metaQuery := [];
      for n := 0 to |data|
        invariant |metaQuery| == n
        invariant forall i :: 0 <= i < n ==> metaQuery[i] == Entry(IntKey(i), Compact(data[i].key, data[i].val))
      {
        var key, value := data[n].key, data[n].val;
        // `$meta_query[] = ...` on a list appends under the next index, its length
        metaQuery := metaQuery + [Entry(IntKey(|metaQuery|), Compact(key, value))];
      }
    }
  }

  // ---------------------------------------------------------------------------
  // _p2p_pluck

  /** A PHP array variable, so that a function can take it by reference (`&$arr`). */
  class ArrayVar {
    var entries: seq<Entry>

    constructor (entries: seq<Entry>)
      ensures this.entries == entries
    {
      this.entries := entries;
    }
  }

  /**
   `_p2p_pluck`: read `$arr[$key]` (null when absent) and `unset` it in the
   caller's array.
   */
  method Pluck(arr: ArrayVar, key: Key) returns (value: Value)
    modifies arr
    ensures value == Read(old(arr.entries), key)
    ensures arr.entries == Unset(old(arr.entries), key)
    ensures key !in Keys(arr.entries) && !IsSet(arr.entries, key)
    ensures forall k :: k != key ==> Read(arr.entries, k) == Read(old(arr.entries), k)
    ensures DistinctKeys(old(arr.entries)) ==> DistinctKeys(arr.entries)
  {
    value := Read(arr.entries, key);
    ghost var before := arr.entries;
    arr.entries := Unset(arr.entries, key);
    UnsetRemovesKey(before, key);
    forall k | k != key ensures Read(arr.entries, k) == Read(before, k) {
      UnsetKeepsOthers(before, key, k);
    }
    if DistinctKeys(before) {
      UnsetDistinct(before, key);
    }
  }
}
