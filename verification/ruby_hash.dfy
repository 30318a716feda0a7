/** Ruby's Hash with String keys and String values, as the image helpers use
    it: keys are unique and remembered in insertion order. The contents are a
    sequence of entries in that order; `Hash` is the mutable object callers
    hand around: `delete` and `[]=` change `entries` in place; `has_key?`,
    `empty?` and `keys` only read it. */
module RubyHash {

  datatype Option<T> = None | Some(value: T) {
    /** Ruby's `x || default` for a value that is a String or nil. */
    function GetOr(default: T): T {
      match this
      case Some(v) => v
      case None => default
    }
  }

  datatype Entry = Entry(key: string, value: string)

  /** Hash#keys: the keys in insertion order. */
  function Keys(s: seq<Entry>): (ks: seq<string>)
    ensures |ks| == |s|
    ensures forall i :: 0 <= i < |s| ==> ks[i] == s[i].key
  {
    if s == [] then [] else [s[0].key] + Keys(s[1..])
  }

  ghost predicate DistinctKeys(s: seq<Entry>) {
    forall i, j :: 0 <= i < j < |s| ==> s[i].key != s[j].key
  }

  /** Hash#[]: the value stored under `k`, or nil. */
  function Get(s: seq<Entry>, k: string): Option<string>
  {
    if s == [] then None
    else if s[0].key == k then Some(s[0].value)
    else Get(s[1..], k)
  }

  /** A lookup answers nil exactly for a missing key, and otherwise a value
      stored under that key. */
  lemma {:induction false} GetFinds(s: seq<Entry>, k: string)
    ensures Get(s, k).None? <==> k !in Keys(s)
    ensures Get(s, k).Some? ==> Entry(k, Get(s, k).value) in s
  {
    if s != [] {
      GetFinds(s[1..], k);
      assert Keys(s) == [s[0].key] + Keys(s[1..]);
    }
  }

  /** The entries whose keys are outside `ks`, in their original order. */
  function Without(s: seq<Entry>, ks: set<string>): (r: seq<Entry>)
    ensures |r| <= |s|
  {
    if s == [] then []
    else if s[0].key in ks then Without(s[1..], ks)
    else [s[0]] + Without(s[1..], ks)
  }

  /** An entry survives the filter exactly when its key is not in `ks`. */
  lemma {:induction false} WithoutMembers(s: seq<Entry>, ks: set<string>)
    ensures forall e :: e in Without(s, ks) <==> e in s && e.key !in ks
  {
    if s != [] {
      WithoutMembers(s[1..], ks);
      assert forall e :: e in s <==> e == s[0] || e in s[1..];
    }
  }

  /** Filtering keeps keys unique. */
  lemma {:induction false} WithoutKeepsKeysDistinct(s: seq<Entry>, ks: set<string>)
    requires DistinctKeys(s)
    ensures DistinctKeys(Without(s, ks))
  {
    if s != [] {
      var tail := s[1..];
      assert forall i, j :: 0 <= i < j < |tail| ==> tail[i] == s[i + 1] && tail[j] == s[j + 1];
      WithoutKeepsKeysDistinct(tail, ks);
      if s[0].key !in ks {
        var t := Without(tail, ks);
        WithoutMembers(tail, ks);
        forall j | 0 <= j < |t| ensures t[j].key != s[0].key {
          assert t[j] in t;
          var i :| 0 <= i < |tail| && tail[i] == t[j];
          assert tail[i] == s[i + 1];
        }
        var r := [s[0]] + t;
        forall i, j | 0 <= i < j < |r| ensures r[i].key != r[j].key {
          if i > 0 {
            assert r[i] == t[i - 1] && r[j] == t[j - 1];
          } else {
            assert r[j] == t[j - 1];
          }
        }
      }
    }
  }

  /** The contents after Hash#delete(k): the entries of every other key. */
  function Remove(s: seq<Entry>, k: string): (r: seq<Entry>)
  {
    Without(s, {k})
  }

  /** After Hash#delete(k) the key is gone and every other entry stays. */
  lemma RemoveMembers(s: seq<Entry>, k: string)
    ensures k !in Keys(Remove(s, k))
    ensures forall e :: e in Remove(s, k) <==> e in s && e.key != k
  {
    WithoutMembers(s, {k});
  }

  /** The contents after `h[k] = v`: an existing key keeps its place and takes
      the new value, a new key goes to the end. */
  function Put(s: seq<Entry>, k: string, v: string): (r: seq<Entry>)
    ensures |r| == if k in Keys(s) then |s| else |s| + 1
  {
    if s == [] then [Entry(k, v)]
    else if s[0].key == k then [Entry(k, v)] + s[1..]
    else [s[0]] + Put(s[1..], k, v)
  }

  /** After `h[k] = v`, `h[k]` is `v` and every other key maps as before. */
  lemma {:induction false} PutGet(s: seq<Entry>, k: string, v: string, k': string)
    ensures Get(Put(s, k, v), k') == if k' == k then Some(v) else Get(s, k')
  {
    if s != [] {
      if s[0].key == k {
        KeysCons(Entry(k, v), s[1..]);
      } else {
        PutGet(s[1..], k, v, k');
        KeysCons(s[0], Put(s[1..], k, v));
      }
    }
  }

  /** `h[k] = v` keeps the key order and appends a new key at the end. */
  lemma {:induction false} PutKeys(s: seq<Entry>, k: string, v: string)
    ensures Keys(Put(s, k, v)) == if k in Keys(s) then Keys(s) else Keys(s) + [k]
  {
    if s != [] {
      KeysCons(s[0], s[1..]);
      assert s == [s[0]] + s[1..];
      if s[0].key == k {
        KeysCons(Entry(k, v), s[1..]);
      } else {
        PutKeys(s[1..], k, v);
        KeysCons(s[0], Put(s[1..], k, v));
      }
    }
  }

  /** Keys are unique exactly when the key list has no repeats. */
  lemma DistinctKeysList(s: seq<Entry>)
    ensures DistinctKeys(s) <==> forall i, j :: 0 <= i < j < |Keys(s)| ==> Keys(s)[i] != Keys(s)[j]
  {
    if !DistinctKeys(s) {
      var i, j :| 0 <= i < j < |s| && s[i].key == s[j].key;
      assert Keys(s)[i] == Keys(s)[j];
    }
  }

  /** Storing into a hash keeps its keys unique. */
  lemma PutKeepsKeysDistinct(s: seq<Entry>, k: string, v: string)
    requires DistinctKeys(s)
    ensures DistinctKeys(Put(s, k, v))
  {
    var r := Put(s, k, v);
    PutKeys(s, k, v);
    DistinctKeysList(s);
    DistinctKeysList(r);
    if k !in Keys(s) {
      forall i, j | 0 <= i < j < |Keys(r)| ensures Keys(r)[i] != Keys(r)[j] {
        if j == |Keys(s)| {
          assert Keys(r)[i] == Keys(s)[i];
        }
      }
    }
  }

  lemma KeysCons(e: Entry, s: seq<Entry>)
    ensures Keys([e] + s) == [e.key] + Keys(s)
    ensures forall k :: Get([e] + s, k) == if e.key == k then Some(e.value) else Get(s, k)
  {
    assert ([e] + s)[1..] == s;
  }

  lemma WithoutCons(e: Entry, s: seq<Entry>, ks: set<string>)
    ensures Without([e] + s, ks) == if e.key in ks then Without(s, ks) else [e] + Without(s, ks)
  {
    assert ([e] + s)[1..] == s;
  }

  /** Filtering keeps relative order: it distributes over concatenation. */
  lemma {:induction false} WithoutConcat(s: seq<Entry>, t: seq<Entry>, ks: set<string>)
    ensures Without(s + t, ks) == Without(s, ks) + Without(t, ks)
  {
    if s == [] {
      assert s + t == t;
    } else {
      assert (s + t)[0] == s[0];
      assert (s + t)[1..] == s[1..] + t;
      WithoutConcat(s[1..], t, ks);
      if s[0].key in ks {
        assert Without(s + t, ks) == Without(s[1..] + t, ks);
      } else {
        assert Without(s + t, ks) == [s[0]] + Without(s[1..] + t, ks);
      }
    }
  }

  /** Deleting one set of keys and then another deletes their union. */
  lemma {:induction false} WithoutWithout(s: seq<Entry>, a: set<string>, b: set<string>)
    ensures Without(Without(s, a), b) == Without(s, a + b)
  {
    if s != [] {
      WithoutWithout(s[1..], a, b);
    }
  }

  /** Deleting a key the hash does not hold changes nothing. */
  lemma {:induction false} RemoveAbsent(s: seq<Entry>, k: string)
    requires k !in Keys(s)
    ensures Remove(s, k) == s
  {
    if s != [] {
      assert Keys(s)[0] == s[0].key;
      assert forall i :: 0 <= i < |s[1..]| ==> Keys(s[1..])[i] == Keys(s)[i + 1];
      RemoveAbsent(s[1..], k);
      assert s == [s[0]] + s[1..];
    }
  }

  /** Deleting other keys does not change what a key maps to. */
  lemma {:induction false} GetWithout(s: seq<Entry>, ks: set<string>, k: string)
    requires k !in ks
    ensures Get(Without(s, ks), k) == Get(s, k)
  {
    if s != [] {
      GetWithout(s[1..], ks, k);
    }
  }

  /** With unique keys, a lookup finds exactly the stored pair. */
  lemma GetDistinct(s: seq<Entry>, k: string, v: string)
    requires DistinctKeys(s)
    ensures Get(s, k) == Some(v) <==> Entry(k, v) in s
  {
    GetFinds(s, k);
  }

  /** With unique keys, lookups see only which pairs are stored, not their order. */
  lemma GetIgnoresOrder(s: seq<Entry>, t: seq<Entry>, k: string)
    requires DistinctKeys(s) && DistinctKeys(t)
    requires forall e :: e in s <==> e in t
    ensures Get(s, k) == Get(t, k)
  {
    match Get(s, k)
    case Some(v) => GetDistinct(s, k, v); GetDistinct(t, k, v);
    case None =>
      if Get(t, k).Some? {
        GetDistinct(t, k, Get(t, k).value);
        GetDistinct(s, k, Get(t, k).value);
      }
  }

  /** The contents after storing each pair of `t` in turn into an empty
      hash. */
  function StoreAll(t: seq<Entry>): seq<Entry>
  {
    if t == [] then []
    else
      var last := t[|t| - 1];
      Put(StoreAll(t[..|t| - 1]), last.key, last.value)
  }

  lemma StoreAllSnoc(t: seq<Entry>, e: Entry)
    ensures StoreAll(t + [e]) == Put(StoreAll(t), e.key, e.value)
  {
    assert (t + [e])[..|t|] == t;
  }

  /** `t[i]` is the last pair of `t` with key `k`. */
  ghost predicate LastWith(t: seq<Entry>, k: string, i: int) {
    0 <= i < |t| && t[i].key == k && forall j :: i < j < |t| ==> t[j].key != k
  }

  /** After storing every pair, a key maps to nil when no pair has it, and
      otherwise to the value of the last pair that has it. */
  lemma {:induction false} StoreAllGet(t: seq<Entry>, k: string)
    ensures Get(StoreAll(t), k).None? <==> k !in Keys(t)
    ensures Get(StoreAll(t), k).Some? ==> exists i :: LastWith(t, k, i) && t[i].value == Get(StoreAll(t), k).value
  {
    if t != [] {
      var p, last := t[..|t| - 1], t[|t| - 1];
      assert t == p + [last];
      StoreAllSnoc(p, last);
      StoreAllGet(p, k);
      PutGet(StoreAll(p), last.key, last.value, k);
      KeysSnoc(p, last);
      if last.key == k {
        assert LastWith(t, k, |t| - 1);
      } else if Get(StoreAll(p), k).Some? {
        var i :| LastWith(p, k, i) && p[i].value == Get(StoreAll(p), k).value;
        LastWithSnoc(p, last, k, i);
      }
    }
  }

  lemma KeysSnoc(p: seq<Entry>, e: Entry)
    ensures Keys(p + [e]) == Keys(p) + [e.key]
  {
  }

  /** A later pair of another key does not change which pair is last. */
  lemma LastWithSnoc(p: seq<Entry>, e: Entry, k: string, i: int)
    requires LastWith(p, k, i) && e.key != k
    ensures LastWith(p + [e], k, i) && (p + [e])[i] == p[i]
  {
  }

  /** Storing every pair gives one entry per distinct key, each holding a
      value some pair stored. */
  lemma {:induction false} StoreAllShape(t: seq<Entry>)
    ensures DistinctKeys(StoreAll(t))
    ensures |StoreAll(t)| <= |t|
    ensures forall k :: k in Keys(StoreAll(t)) <==> k in Keys(t)
    ensures forall e :: e in StoreAll(t) ==> e in t
  {
    if t != [] {
      var p, last := t[..|t| - 1], t[|t| - 1];
      assert t == p + [last];
      StoreAllSnoc(p, last);
      StoreAllShape(p);
      PutKeepsKeysDistinct(StoreAll(p), last.key, last.value);
      PutKeys(StoreAll(p), last.key, last.value);
      PutMembers(StoreAll(p), last.key, last.value);
      assert Keys(t) == Keys(p) + [last.key];
    }
  }

  /** Pairs with distinct keys are stored as they are. */
  lemma {:induction false} StoreAllDistinct(t: seq<Entry>)
    requires DistinctKeys(t)
    ensures StoreAll(t) == t
  {
    if t != [] {
      var p, last := t[..|t| - 1], t[|t| - 1];
      assert t == p + [last];
      StoreAllSnoc(p, last);
      StoreAllDistinct(p);
      PutNew(p, last.key, last.value);
    }
  }

  /** Every entry after `h[k] = v` is the new pair or one that was there. */
  lemma {:induction false} PutMembers(s: seq<Entry>, k: string, v: string)
    ensures forall e :: e in Put(s, k, v) ==> e == Entry(k, v) || e in s
  {
    if s != [] && s[0].key != k {
      PutMembers(s[1..], k, v);
    }
  }

  /** Storing a new key appends its entry. */
  lemma {:induction false} PutNew(s: seq<Entry>, k: string, v: string)
    requires k !in Keys(s)
    ensures Put(s, k, v) == s + [Entry(k, v)]
  {
    if s != [] {
      assert Keys(s) == [s[0].key] + Keys(s[1..]);
      PutNew(s[1..], k, v);
      assert s + [Entry(k, v)] == [s[0]] + (s[1..] + [Entry(k, v)]);
    }
  }

  /** A Ruby Hash object. Its methods are the Hash methods the helpers call. */
  class Hash {
    var entries: seq<Entry>

    ghost predicate Valid()
      reads this
    {
      DistinctKeys(entries)
    }

    /** `{}` */
    constructor ()
      ensures Valid() && entries == []
    {
      entries := [];
    }

    /** Hash#delete(key): removes the entry and answers its value, or nil. */
    method Delete(key: string) returns (v: Option<string>)
      requires Valid()
      modifies this
      ensures Valid()
      ensures v == Get(old(entries), key)
      ensures entries == Remove(old(entries), key)
    {
      v := Get(entries, key);
      WithoutKeepsKeysDistinct(entries, {key});
      entries := Remove(entries, key);
    }

    /** Hash#[]=(key, value) */
    method Store(key: string, value: string)
      requires Valid()
      modifies this
      ensures Valid()
      ensures entries == Put(old(entries), key, value)
    {
      PutKeepsKeysDistinct(entries, key, value);
      entries := Put(entries, key, value);
    }

    /** Hash#has_key? */
    method HasKey(key: string) returns (b: bool)
      ensures b <==> key in Keys(entries)
    {
      b := Get(entries, key).Some?;
      GetFinds(entries, key);
    }

    /** Hash#empty? */
    method IsEmpty() returns (b: bool)
      ensures b <==> entries == []
    {
      b := |entries| == 0;
    }

    /** Hash#keys */
    method KeyList() returns (ks: seq<string>)
      ensures |ks| == |entries|
      ensures forall i :: 0 <= i < |ks| ==> ks[i] == entries[i].key
    {
      ks := Keys(entries);
    }
  }
}
