/**
 * An insertion-ordered dictionary with string keys. Both a Python `dict` and a
 * JavaScript object record with (non-numeric) string keys behave this way: a
 * new key is appended to the key order, assigning an existing key replaces the
 * value but keeps the key's position, and deleting a key removes it from both.
 */
module KeyedIndex {

  datatype OrderedDict<T> = OrderedDict(keys: seq<string>, entries: map<string, T>)

  datatype Deletion<T> = Deleted(dict: OrderedDict<T>) | KeyMissing(key: string)

  predicate NoDuplicates(ks: seq<string>) {
    forall i, j :: 0 <= i < j < |ks| ==> ks[i] != ks[j]
  }

  predicate WellFormed<T>(d: OrderedDict<T>) {
    && NoDuplicates(d.keys)
    && (forall k :: k in d.keys ==> k in d.entries)
    && (forall k :: k in d.entries ==> k in d.keys)
  }

  function Empty<T>(): (d: OrderedDict<T>)
    ensures WellFormed(d) && d.entries == map[]
  {
    OrderedDict([], map[])
  }

  /** `d[k] = v`: the key now maps to `v`, a present key keeps its place, a new one goes last. */
  function Put<T>(d: OrderedDict<T>, k: string, v: T): (r: OrderedDict<T>)
    requires WellFormed(d)
    ensures WellFormed(r)
    ensures k in r.entries && r.entries[k] == v
    ensures forall x :: x != k ==> (x in r.entries <==> x in d.entries)
    ensures forall x :: x != k && x in d.entries ==> r.entries[x] == d.entries[x]
    ensures |r.keys| == if k in d.entries then |d.keys| else |d.keys| + 1
    ensures d.keys <= r.keys
  {
    OrderedDict(if k in d.entries then d.keys else d.keys + [k], d.entries[k := v])
  }

  function Without(ks: seq<string>, k: string): (r: seq<string>)
    ensures forall x :: x in r <==> x in ks && x != k
  {
    if ks == [] then [] else (if ks[0] == k then [] else [ks[0]]) + Without(ks[1..], k)
  }

  lemma {:induction false} WithoutNoDuplicates(ks: seq<string>, k: string)
    requires NoDuplicates(ks)
    ensures NoDuplicates(Without(ks, k))
  {
    if ks != [] {
      WithoutNoDuplicates(ks[1..], k);
      var rest := Without(ks[1..], k);
      assert ks[0] !in ks[1..];
      assert ks[0] !in rest;
    }
  }

  /** `del d[k]`. */
  function Del<T>(d: OrderedDict<T>, k: string): (r: OrderedDict<T>)
    requires WellFormed(d) && k in d.entries
    ensures WellFormed(r)
    ensures r.entries.Keys == d.entries.Keys - {k}
    ensures forall x :: x in r.entries ==> r.entries[x] == d.entries[x]
  {
    WithoutNoDuplicates(d.keys, k);
    OrderedDict(Without(d.keys, k), d.entries - {k})
  }

  /** `list(d.values())` / `Object.values(d)`: one value per key, in key order. */
  function Values<T>(d: OrderedDict<T>): (vs: seq<T>)
    requires WellFormed(d)
    ensures |vs| == |d.keys|
    ensures forall k :: k in d.entries ==> d.entries[k] in vs
    ensures forall i :: 0 <= i < |vs| ==> d.keys[i] in d.entries && vs[i] == d.entries[d.keys[i]]
  {
    var vs := seq(|d.keys|, i requires 0 <= i < |d.keys| => d.entries[d.keys[i]]);
    assert forall i :: 0 <= i < |d.keys| ==> vs[i] == d.entries[d.keys[i]];
    vs
  }

  function KeySet<T>(xs: seq<T>, key: T -> string): set<string> {
    set i | 0 <= i < |xs| :: key(xs[i])
  }

  /** The dictionary `{key(x): x for x in xs}`, equally the record filled by `xs.forEach(x => r[key(x)] = x)`. */
  function FromSeq<T>(xs: seq<T>, key: T -> string): (d: OrderedDict<T>)
    ensures WellFormed(d)
    ensures d.entries.Keys == KeySet(xs, key)
  {
    if xs == [] then Empty()
    else
      var init := xs[..|xs| - 1];
      assert forall i :: 0 <= i < |init| ==> init[i] == xs[i];
      assert KeySet(xs, key) == KeySet(init, key) + {key(xs[|xs| - 1])};
      Put(FromSeq(init, key), key(xs[|xs| - 1]), xs[|xs| - 1])
  }

  /** `for k in ks: del d[k]`, stopping at the first key that is no longer present. */
  function DelAll<T>(d: OrderedDict<T>, ks: seq<string>): (r: Deletion<T>)
    requires WellFormed(d)
    ensures r.Deleted? ==> WellFormed(r.dict)
    decreases |ks|
  {
    if ks == [] then Deleted(d)
    else if ks[0] !in d.entries then KeyMissing(ks[0])
    else DelAll(Del(d, ks[0]), ks[1..])
  }

  predicate UniqueKeys<T>(xs: seq<T>, key: T -> string) {
    forall i, j :: 0 <= i < j < |xs| ==> key(xs[i]) != key(xs[j])
  }

  /** With unique keys, an element is found by its key alone. */
  lemma SameKeySameIndex<T>(xs: seq<T>, key: T -> string, i: nat, j: nat)
    requires UniqueKeys(xs, key) && i < |xs| && j < |xs|
    requires key(xs[i]) == key(xs[j])
    ensures i == j
  {
  }

  function KeysOf<T>(ys: seq<T>, key: T -> string): (ks: seq<string>)
    ensures |ks| == |ys|
    ensures forall i :: 0 <= i < |ys| ==> ks[i] == key(ys[i])
  {
    if ys == [] then [] else [key(ys[0])] + KeysOf(ys[1..], key)
  }

  /** The elements of `ys` whose key is not in `ks`, in their order. */
  function Retain<T>(ys: seq<T>, key: T -> string, ks: seq<string>): (r: seq<T>)
    ensures forall i :: 0 <= i < |r| ==> r[i] in ys && key(r[i]) !in ks
    ensures forall i :: 0 <= i < |ys| && key(ys[i]) !in ks ==> ys[i] in r
  {
    if ys == [] then [] else (if key(ys[0]) in ks then [] else [ys[0]]) + Retain(ys[1..], key, ks)
  }

  /** `d` holds exactly the elements of `ys`, in their order, each under its own key. */
  ghost predicate Mirrors<T>(d: OrderedDict<T>, ys: seq<T>, key: T -> string) {
    && WellFormed(d)
    && d.keys == KeysOf(ys, key)
    && (forall i :: 0 <= i < |ys| ==> key(ys[i]) in d.entries && d.entries[key(ys[i])] == ys[i])
  }

  /** A key assigned in `xs` maps to the LAST element of `xs` that carries it. */
  lemma {:induction false} LastOccurrenceWins<T>(xs: seq<T>, key: T -> string, i: nat)
    requires i < |xs|
    requires forall j :: i < j < |xs| ==> key(xs[j]) != key(xs[i])
    ensures key(xs[i]) in FromSeq(xs, key).entries
    ensures FromSeq(xs, key).entries[key(xs[i])] == xs[i]
  {
    var init := xs[..|xs| - 1];
    if i < |xs| - 1 {
      assert forall j :: i < j < |init| ==> init[j] == xs[j];
      LastOccurrenceWins(init, key, i);
      assert init[i] == xs[i];
    }
  }

  /** The key order of `FromSeq(xs, key)` is the order of first occurrence. */
  lemma {:induction false} FromSeqKeysFirstOccurrence<T>(xs: seq<T>, key: T -> string, i: nat)
    requires i < |xs|
    requires forall j :: 0 <= j < i ==> key(xs[j]) != key(xs[i])
    ensures |FromSeq(xs, key).keys| > |KeySet(xs[..i], key)|
    ensures FromSeq(xs, key).keys[|KeySet(xs[..i], key)|] == key(xs[i])
  {
    var init := xs[..|xs| - 1];
    if i < |xs| - 1 {
      assert init[..i] == xs[..i];
      assert init[i] == xs[i];
      FromSeqKeysFirstOccurrence(init, key, i);
      FromSeqKeysGrow(xs, key);
    } else {
      assert init == xs[..i];
      FromSeqKeyCount(init, key);
      FromSeqFreshLastKey(xs, key);
    }
  }

  /** Adding an element keeps the key order built so far as a prefix. */
  lemma FromSeqKeysGrow<T>(xs: seq<T>, key: T -> string)
    requires |xs| > 0
    ensures FromSeq(xs[..|xs| - 1], key).keys <= FromSeq(xs, key).keys
  {
  }

  /** A last element whose key is new appends that key to the order. */
  lemma FromSeqFreshLastKey<T>(xs: seq<T>, key: T -> string)
    requires |xs| > 0
    requires forall j :: 0 <= j < |xs| - 1 ==> key(xs[j]) != key(xs[|xs| - 1])
    ensures FromSeq(xs, key).keys == FromSeq(xs[..|xs| - 1], key).keys + [key(xs[|xs| - 1])]
  {
    var init := xs[..|xs| - 1];
    assert forall j :: 0 <= j < |init| ==> init[j] == xs[j];
    assert key(xs[|xs| - 1]) !in KeySet(init, key);
  }

  lemma DistinctCount(ks: seq<string>)
    requires NoDuplicates(ks)
    ensures |set k | k in ks| == |ks|
  {
    if ks != [] {
      var rest := ks[1..];
      assert NoDuplicates(rest);
      DistinctCount(rest);
      assert (set k | k in ks) == (set k | k in rest) + {ks[0]};
      assert ks[0] !in rest;
    }
  }

  /** A well-formed dictionary has exactly one key in its order per entry. */
  lemma WellFormedSize<T>(d: OrderedDict<T>)
    requires WellFormed(d)
    ensures |d.keys| == |d.entries|
  {
    DistinctCount(d.keys);
    assert (set k | k in d.keys) == d.entries.Keys;
  }

  /** Every value of the dictionary built from a sequence is an element of that sequence. */
  lemma {:induction false} FromSeqEntriesFromList<T>(xs: seq<T>, key: T -> string)
    ensures forall k :: k in FromSeq(xs, key).entries ==> FromSeq(xs, key).entries[k] in xs
  {
    if xs != [] {
      var init := xs[..|xs| - 1];
      FromSeqEntriesFromList(init, key);
      assert forall x :: x in init ==> x in xs;
    }
  }

  lemma FromSeqKeyCount<T>(xs: seq<T>, key: T -> string)
    ensures |FromSeq(xs, key).keys| == |KeySet(xs, key)|
  {
    WellFormedSize(FromSeq(xs, key));
  }

  /** Adding an element under a fresh key appends it to the mirrored sequence. */
  lemma PutFreshMirrors<T>(d: OrderedDict<T>, ys: seq<T>, key: T -> string, y: T)
    requires Mirrors(d, ys, key)
    requires forall i :: 0 <= i < |ys| ==> key(ys[i]) != key(y)
    ensures Mirrors(Put(d, key(y), y), ys + [y], key)
  {
    PutFreshKeys(d, ys, key, y);
    PutFreshEntries(d, ys, key, y);
  }

  lemma PutFreshKeys<T>(d: OrderedDict<T>, ys: seq<T>, key: T -> string, y: T)
    requires Mirrors(d, ys, key)
    requires forall i :: 0 <= i < |ys| ==> key(ys[i]) != key(y)
    ensures Put(d, key(y), y).keys == KeysOf(ys + [y], key)
  {
    assert key(y) !in d.keys;
    assert Put(d, key(y), y).keys == d.keys + [key(y)];
    KeysOfAppend(ys, [y], key);
  }

  lemma PutFreshEntries<T>(d: OrderedDict<T>, ys: seq<T>, key: T -> string, y: T)
    requires Mirrors(d, ys, key)
    requires forall i :: 0 <= i < |ys| ==> key(ys[i]) != key(y)
    ensures forall i :: 0 <= i < |ys + [y]| ==> key((ys + [y])[i]) in Put(d, key(y), y).entries && Put(d, key(y), y).entries[key((ys + [y])[i])] == (ys + [y])[i]
  {
    var zs := ys + [y];
    var e := d.entries[key(y) := y];
    forall i | 0 <= i < |zs| ensures key(zs[i]) in e && e[key(zs[i])] == zs[i] {
      if i < |ys| {
        assert zs[i] == ys[i];
      }
    }
  }

  /** With unique keys the dictionary built from `xs` mirrors `xs`. */
  lemma {:induction false} FromSeqMirrors<T>(xs: seq<T>, key: T -> string)
    requires UniqueKeys(xs, key)
    ensures Mirrors(FromSeq(xs, key), xs, key)
  {
    if xs != [] {
      var init := xs[..|xs| - 1];
      var last := xs[|xs| - 1];
      assert init + [last] == xs;
      assert forall i :: 0 <= i < |init| ==> init[i] == xs[i];
      FromSeqMirrors(init, key);
      PutFreshMirrors(FromSeq(init, key), init, key, last);
    }
  }

  lemma {:induction false} MirrorsValues<T>(d: OrderedDict<T>, ys: seq<T>, key: T -> string)
    requires Mirrors(d, ys, key)
    ensures Values(d) == ys
  {
    var vs := Values(d);
    forall i | 0 <= i < |ys| ensures vs[i] == ys[i] {
      assert d.keys[i] == key(ys[i]);
    }
  }

  /** With unique keys, `list({key(x): x for x in xs}.values()) == xs`. */
  lemma UniqueKeysValues<T>(xs: seq<T>, key: T -> string)
    requires UniqueKeys(xs, key)
    ensures Values(FromSeq(xs, key)) == xs
  {
    FromSeqMirrors(xs, key);
    MirrorsValues(FromSeq(xs, key), xs, key);
  }

  lemma {:induction false} KeysOfRetain<T>(ys: seq<T>, key: T -> string, k: string)
    ensures KeysOf(Retain(ys, key, [k]), key) == Without(KeysOf(ys, key), k)
  {
    if ys != [] {
      KeysOfRetain(ys[1..], key, k);
      var head := if key(ys[0]) in [k] then [] else [ys[0]];
      assert Retain(ys, key, [k]) == head + Retain(ys[1..], key, [k]);
      KeysOfAppend(head, Retain(ys[1..], key, [k]), key);
      assert KeysOf(ys, key)[1..] == KeysOf(ys[1..], key);
    }
  }

  lemma {:induction false} KeysOfAppend<T>(a: seq<T>, b: seq<T>, key: T -> string)
    ensures KeysOf(a + b, key) == KeysOf(a, key) + KeysOf(b, key)
  {
  }

  lemma {:induction false} RetainTwice<T>(ys: seq<T>, key: T -> string, ks: seq<string>)
    requires ks != []
    ensures Retain(Retain(ys, key, [ks[0]]), key, ks[1..]) == Retain(ys, key, ks)
  {
    if ys != [] {
      RetainTwice(ys[1..], key, ks);
      var head := if key(ys[0]) in [ks[0]] then [] else [ys[0]];
      RetainAppend(head, Retain(ys[1..], key, [ks[0]]), key, ks[1..]);
      assert key(ys[0]) in ks <==> key(ys[0]) in [ks[0]] || key(ys[0]) in ks[1..] by {
        assert ks == [ks[0]] + ks[1..];
      }
    }
  }

  lemma {:induction false} RetainAppend<T>(a: seq<T>, b: seq<T>, key: T -> string, ks: seq<string>)
    ensures Retain(a + b, key, ks) == Retain(a, key, ks) + Retain(b, key, ks)
  {
    if a == [] {
      assert a + b == b;
    } else {
      assert (a + b)[1..] == a[1..] + b;
      assert (a + b)[0] == a[0];
      RetainAppend(a[1..], b, key, ks);
    }
  }

  lemma DelMirrors<T>(d: OrderedDict<T>, ys: seq<T>, key: T -> string, k: string)
    requires Mirrors(d, ys, key) && k in d.entries
    ensures Mirrors(Del(d, k), Retain(ys, key, [k]), key)
  {
    KeysOfRetain(ys, key, k);
    var r := Retain(ys, key, [k]);
    forall i | 0 <= i < |r|
      ensures key(r[i]) in Del(d, k).entries && Del(d, k).entries[key(r[i])] == r[i]
    {
      assert r[i] in r;
      var j :| 0 <= j < |ys| && ys[j] == r[i];
    }
  }

  lemma {:induction false} DelAllKeepsMirror<T>(d: OrderedDict<T>, ys: seq<T>, key: T -> string, ks: seq<string>)
    requires Mirrors(d, ys, key)
    requires DelAll(d, ks).Deleted?
    ensures Mirrors(DelAll(d, ks).dict, Retain(ys, key, ks), key)
    decreases |ks|
  {
    if ks == [] {
      RetainNothing(ys, key);
    } else {
      var d' := Del(d, ks[0]);
      var ys' := Retain(ys, key, [ks[0]]);
      DelMirrors(d, ys, key, ks[0]);
      assert DelAll(d, ks) == DelAll(d', ks[1..]);
      DelAllKeepsMirror(d', ys', key, ks[1..]);
      RetainTwice(ys, key, ks);
    }
  }

  /** Deleting every key of `ks` in turn from a dictionary that mirrors `ys` leaves exactly the other elements of `ys`, in order. */
  lemma DelAllMirrors<T>(d: OrderedDict<T>, ys: seq<T>, key: T -> string, ks: seq<string>)
    requires Mirrors(d, ys, key)
    requires DelAll(d, ks).Deleted?
    ensures Values(DelAll(d, ks).dict) == Retain(ys, key, ks)
  {
    DelAllKeepsMirror(d, ys, key, ks);
    MirrorsValues(DelAll(d, ks).dict, Retain(ys, key, ks), key);
  }

  lemma {:induction false} RetainNothing<T>(ys: seq<T>, key: T -> string)
    ensures Retain(ys, key, []) == ys
  {
    if ys != [] {
      RetainNothing(ys[1..], key);
    }
  }

  predicate AllPresent<T>(ks: seq<string>, d: OrderedDict<T>) {
    forall i :: 0 <= i < |ks| ==> ks[i] in d.entries
  }

  lemma NoDuplicatesCons(ks: seq<string>)
    requires ks != []
    ensures NoDuplicates(ks) <==> ks[0] !in ks[1..] && NoDuplicates(ks[1..])
  {
    if ks[0] !in ks[1..] && NoDuplicates(ks[1..]) {
      forall i, j | 0 <= i < j < |ks| ensures ks[i] != ks[j] {
        if i > 0 {
          assert ks[i] == ks[1..][i - 1] && ks[j] == ks[1..][j - 1];
        } else {
          assert ks[j] in ks[1..];
        }
      }
    }
  }

  lemma AllPresentCons<T>(d: OrderedDict<T>, ks: seq<string>)
    requires WellFormed(d) && ks != [] && ks[0] in d.entries
    ensures AllPresent(ks, d) && ks[0] !in ks[1..] <==> AllPresent(ks[1..], Del(d, ks[0]))
  {
    var d' := Del(d, ks[0]);
    if AllPresent(ks[1..], d') {
      forall i | 0 <= i < |ks| ensures ks[i] in d.entries {
        if i > 0 {
          assert ks[i] == ks[1..][i - 1];
        }
      }
    }
  }

  /** Deleting a sequence of keys succeeds exactly when every key is present and none is repeated. */
  lemma {:induction false} DelAllSucceedsIff<T>(d: OrderedDict<T>, ks: seq<string>)
    requires WellFormed(d)
    ensures DelAll(d, ks).Deleted? <==> AllPresent(ks, d) && NoDuplicates(ks)
    decreases |ks|
  {
    if ks != [] && ks[0] in d.entries {
      DelAllSucceedsIff(Del(d, ks[0]), ks[1..]);
      NoDuplicatesCons(ks);
      AllPresentCons(d, ks);
    }
  }

  /** The keys left after a successful deletion are the old keys minus the deleted ones. */
  lemma {:induction false} DelAllEntries<T>(d: OrderedDict<T>, ks: seq<string>)
    requires WellFormed(d) && DelAll(d, ks).Deleted?
    ensures DelAll(d, ks).dict.entries.Keys == d.entries.Keys - (set k | k in ks)
    decreases |ks|
  {
    if ks != [] {
      DelAllEntries(Del(d, ks[0]), ks[1..]);
      assert (set k | k in ks) == {ks[0]} + (set k | k in ks[1..]);
    }
  }

  /** Replacing the element under an existing key keeps every position and changes only that element. */
  lemma PutMirrors<T>(d: OrderedDict<T>, ys: seq<T>, key: T -> string, k: string, v: T)
    requires Mirrors(d, ys, key) && k in d.entries
    ensures Values(Put(d, k, v)) == Replaced(ys, key, k, v)
  {
    var vs := Values(Put(d, k, v));
    var r := Replaced(ys, key, k, v);
    forall i | 0 <= i < |ys| ensures vs[i] == r[i] {
      PutValueAt(d, k, v, i);
      assert d.keys[i] == key(ys[i]);
    }
  }

  /** After `d[k] = v` on a present key, position `i` holds `v` if its key is `k`, and what it held before otherwise. */
  lemma PutValueAt<T>(d: OrderedDict<T>, k: string, v: T, i: nat)
    requires WellFormed(d) && k in d.entries && i < |d.keys|
    ensures Values(Put(d, k, v))[i] == if d.keys[i] == k then v else d.entries[d.keys[i]]
  {
    assert Put(d, k, v).keys == d.keys;
  }

  /** `ys` with every element whose key is `k` replaced by `v`. */
  function Replaced<T>(ys: seq<T>, key: T -> string, k: string, v: T): (r: seq<T>)
    ensures |r| == |ys|
    ensures forall i :: 0 <= i < |ys| ==> r[i] == if key(ys[i]) == k then v else ys[i]
  {
    seq(|ys|, i requires 0 <= i < |ys| => if key(ys[i]) == k then v else ys[i])
  }
}
