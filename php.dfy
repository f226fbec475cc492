/**
 The part of PHP's value model that the helpers in core/util.php rely on:
 scalars, null, and ordered associative arrays with their read, `isset`,
 assignment and `unset` operations.
 */
module Php {

  datatype Option<T> = None | Some(value: T)

  /** An array key after PHP's normalisation (a decimal-integer string is stored as an integer). */
  datatype Key = IntKey(i: int) | StrKey(s: string)

  /** A PHP value. Arrays are ordered: `foreach` visits entries in insertion order. */
  datatype Value =
    | Null
    | Bool(b: bool)
    | Int(i: int)
    | Str(s: string)
    | Arr(entries: seq<Entry>)

  datatype Entry = Entry(key: Key, val: Value)

  /** A key as the value `foreach ($a as $key => ...)` binds to `$key`: an integer or a string that gives the key back. */
  function KeyValue(k: Key): (v: Value)
    ensures v.Int? || v.Str?
    ensures v.Int? ==> k == IntKey(v.i)
    ensures v.Str? ==> k == StrKey(v.s)
  {
    match k
    case IntKey(i) => Int(i)
    case StrKey(s) => Str(s)
  }

  /** The two strings PHP converts to false: the empty string and the one-character string "0". */
  function StrFalsy(s: string): (falsy: bool)
    ensures falsy <==> |s| <= 1 && forall c :: c in s ==> c == '0'
  {
    assert "0" == ['0'];
    assert |s| == 1 ==> s == [s[0]] && s[0] in s;
    s == "" || s == "0"
  }

  /** `!$v`: the values PHP converts to false -- null, false, 0, "", "0" and the empty array. */
  function Falsy(v: Value): (falsy: bool)
    ensures falsy <==> v in {Null, Bool(false), Int(0), Str(""), Str("0"), Arr([])}
  {
    match v
    case Null => true
    case Bool(b) => !b
    case Int(i) => i == 0
    case Str(s) => StrFalsy(s)
    case Arr(es) => es == []
  }

  /** Every PHP array has pairwise distinct keys. */
  predicate DistinctKeys(a: seq<Entry>) {
    forall i, j :: 0 <= i < j < |a| ==> a[i].key != a[j].key
  }

  function Keys(a: seq<Entry>): set<Key> {
    set e | e in a :: e.key
  }

  /** Position of the first entry with key `k`, or `|a|` when there is none. */
  function IndexOf(a: seq<Entry>, k: Key): (i: nat)
    ensures i <= |a|
    ensures i < |a| ==> a[i].key == k
    ensures forall j :: 0 <= j < i ==> a[j].key != k
    ensures i == |a| <==> k !in Keys(a)
  {
    if a == [] then 0
    else if a[0].key == k then 0
    else
      var i := 1 + IndexOf(a[1..], k);
      assert k in Keys(a) ==> k in Keys(a[1..]) by {
        if k in Keys(a) {
          var e :| e in a && e.key == k;
          assert e in a[1..];
        }
      }
      i
  }

  /** `$a[$k]` read as a value: a missing key reads as null (PHP also emits a warning). */
  function Read(a: seq<Entry>, k: Key): (v: Value)
    ensures k !in Keys(a) ==> v == Null
    ensures k in Keys(a) ==> Entry(k, v) in a
    ensures DistinctKeys(a) ==> forall e :: e in a && e.key == k ==> v == e.val
  {
    var i := IndexOf(a, k);
    if i < |a| then a[i].val else Null
  }

  /** `isset($a[$k])`: the key is present and its value is not null. */
  function IsSet(a: seq<Entry>, k: Key): (isSet: bool)
    ensures isSet ==> k in Keys(a)
    ensures DistinctKeys(a) ==> (isSet <==> exists e :: e in a && e.key == k && e.val != Null)
  {
    Read(a, k) != Null
  }

  /** Two arrays whose keys agree position by position find every key at the same place. */
  lemma IndexOfSameKeys(a: seq<Entry>, b: seq<Entry>, k: Key)
    requires |a| == |b|
    requires forall j :: 0 <= j < |a| ==> a[j].key == b[j].key
    ensures IndexOf(a, k) == IndexOf(b, k)
  {
  }

  /** Reading an array given as its first entry followed by the rest. */
  lemma ReadCons(e: Entry, a: seq<Entry>, k: Key)
    ensures Read([e] + a, k) == if e.key == k then e.val else Read(a, k)
  {
    var r := [e] + a;
    assert r[1..] == a;
  }

  /** Reading an array with one entry appended. */
  lemma {:induction false} ReadSnoc(a: seq<Entry>, e: Entry, k: Key)
    ensures Read(a + [e], k) == if k in Keys(a) then Read(a, k) else if e.key == k then e.val else Null
  {
    if a == [] {
      assert [] + [e] == [e];
    } else {
      ReadSnoc(a[1..], e, k);
      assert a + [e] == [a[0]] + (a[1..] + [e]);
      assert a == [a[0]] + a[1..];
      ReadCons(a[0], a[1..] + [e], k);
      ReadCons(a[0], a[1..], k);
      assert Keys(a) == {a[0].key} + Keys(a[1..]) by {
        forall x | x in a ensures x == a[0] || x in a[1..] {
        }
      }
    }
  }

  /** `$a[$k] = $v`: overwrite in place when the key is present, append otherwise. */
  function Assign(a: seq<Entry>, k: Key, v: Value): (r: seq<Entry>)
    ensures Read(r, k) == v
    ensures forall k' :: k' != k ==> Read(r, k') == Read(a, k')
    ensures Keys(r) == Keys(a) + {k}
    ensures |r| == if k in Keys(a) then |a| else |a| + 1
    ensures forall j :: 0 <= j < |a| ==> r[j].key == a[j].key
    ensures DistinctKeys(a) ==> DistinctKeys(r)
  {
    var i := IndexOf(a, k);
    if i < |a| then
      var r := a[i := Entry(k, v)];
      assert forall k' :: IndexOf(r, k') == IndexOf(a, k') by {
        forall k' ensures IndexOf(r, k') == IndexOf(a, k') {
          IndexOfSameKeys(r, a, k');
        }
      }
      assert Keys(r) == Keys(a) by {
        forall x | x in Keys(a) ensures x in Keys(r) {
          var j := IndexOf(a, x);
          assert r[j].key == x;
        }
      }
      r
    else
      var r := a + [Entry(k, v)];
      assert forall k' :: Read(r, k') == if k' in Keys(a) then Read(a, k') else if k' == k then v else Null by {
        forall k' ensures Read(r, k') == if k' in Keys(a) then Read(a, k') else if k' == k then v else Null {
          ReadSnoc(a, Entry(k, v), k');
        }
      }
      assert Keys(r) == Keys(a) + {k} by {
        assert r[|a|].key == k;
        forall x | x in r ensures x in a || x == Entry(k, v) { }
      }
      r
  }

  /** `unset($a[$k])`: drop the entry with key `k`, keeping the order of the rest. */
  function Unset(a: seq<Entry>, k: Key): (r: seq<Entry>)
    ensures forall e :: e in r <==> e in a && e.key != k
    ensures Keys(r) == Keys(a) - {k}
    ensures |r| <= |a|
  {
    if a == [] then []
    else if a[0].key == k then Unset(a[1..], k)
    else [a[0]] + Unset(a[1..], k)
  }

  /** After `unset`, the key reads as null and `isset` is false. */
  lemma UnsetRemovesKey(a: seq<Entry>, k: Key)
    ensures k !in Keys(Unset(a, k))
    ensures Read(Unset(a, k), k) == Null && !IsSet(Unset(a, k), k)
  {
  }

  /** `unset` of one key leaves every other key reading as before. */
  lemma {:induction false} UnsetKeepsOthers(a: seq<Entry>, k: Key, k': Key)
    requires k' != k
    ensures Read(Unset(a, k), k') == Read(a, k')
  {
    if a != [] {
      var tail := a[1..];
      UnsetKeepsOthers(tail, k, k');
      assert a == [a[0]] + tail;
      ReadCons(a[0], tail, k');
      if a[0].key == k {
        calc {
          Read(Unset(a, k), k');
          { assert Unset(a, k) == Unset(tail, k); }
          Read(Unset(tail, k), k');
        }
      } else {
        calc {
          Read(Unset(a, k), k');
          { assert Unset(a, k) == [a[0]] + Unset(tail, k); }
          Read([a[0]] + Unset(tail, k), k');
          { ReadCons(a[0], Unset(tail, k), k'); }
          if a[0].key == k' then a[0].val else Read(Unset(tail, k), k');
        }
      }
    }
  }

  /** `unset` of a key that is not there changes nothing. */
  lemma {:induction false} UnsetAbsent(a: seq<Entry>, k: Key)
    requires k !in Keys(a)
    ensures Unset(a, k) == a
  {
    if a != [] {
      assert a[0] in a;
      assert Keys(a[1..]) <= Keys(a) by {
        forall x | x in a[1..] ensures x in a { }
      }
      UnsetAbsent(a[1..], k);
      assert a == [a[0]] + a[1..];
    }
  }

  /** On a well-formed array, `unset` splices out exactly the entry with that key. */
  lemma {:induction false} UnsetSplices(a: seq<Entry>, k: Key)
    requires DistinctKeys(a)
    requires k in Keys(a)
    ensures Unset(a, k) == a[..IndexOf(a, k)] + a[IndexOf(a, k) + 1..]
  {
    var i := IndexOf(a, k);
    if a[0].key == k {
      assert k !in Keys(a[1..]) by {
        forall e | e in a[1..] ensures e.key != k {
          var j :| 0 <= j < |a[1..]| && a[1..][j] == e;
          assert a[j + 1] == e;
        }
      }
      UnsetAbsent(a[1..], k);
    } else {
      var tail := a[1..];
      assert DistinctKeys(tail);
      assert k in Keys(tail) by {
        assert a[i] in tail;
      }
      UnsetSplices(tail, k);
      var j := IndexOf(tail, k);
      assert i == 1 + j;
      calc {
        Unset(a, k);
        [a[0]] + Unset(tail, k);
        [a[0]] + (tail[..j] + tail[j + 1..]);
        { assert a[..i] == [a[0]] + tail[..j]; assert a[i + 1..] == tail[j + 1..]; }
        a[..i] + a[i + 1..];
      }
    }
  }

  /** `unset` keeps an array's keys distinct. */
  lemma {:induction false} UnsetDistinct(a: seq<Entry>, k: Key)
    requires DistinctKeys(a)
    ensures DistinctKeys(Unset(a, k))
    ensures |Unset(a, k)| == if k in Keys(a) then |a| - 1 else |a|
  {
    if k in Keys(a) {
      UnsetSplices(a, k);
      var i := IndexOf(a, k);
      var r := a[..i] + a[i + 1..];
      assert |r| == |a| - 1;
      assert forall p :: 0 <= p < |r| ==> r[p] == a[if p < i then p else p + 1];
      forall p, q | 0 <= p < q < |r| ensures r[p].key != r[q].key {
        var p' := if p < i then p else p + 1;
        var q' := if q < i then q else q + 1;
        assert p' < q' < |a|;
        assert r[p] == a[p'] && r[q] == a[q'];
      }
      assert DistinctKeys(r);
    } else {
      UnsetAbsent(a, k);
    }
  }
}
