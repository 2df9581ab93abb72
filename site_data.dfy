/** The site data of build.py: the mapping loaded from the YAML front matter, dotted-path lookup
    (`get_nested_value`) and flattening into dotted keys (`flatten_dict`, `count_data_keys`). */
module SiteData {
  import opened Wrappers
  import opened Strings

  /** A value produced by the YAML loader. `Null` is Python's `None`; `Leaf` stands for every value that is
      neither `None` nor a dict (strings, numbers, booleans, lists), identified by `atom`; `Dict` is a
      mapping with string keys kept in insertion order. */
  datatype Value = Null | Leaf(atom: string) | Dict(entries: seq<(string, Value)>)

  type Entries = seq<(string, Value)>

  predicate UniqueKeys(entries: Entries)
  {
    forall i, j :: 0 <= i < j < |entries| ==> entries[i].0 != entries[j].0
  }

  /** What a Python dict can be: every mapping in the tree has pairwise distinct keys. */
  predicate WellFormed(v: Value)
  {
    v.Dict? ==> UniqueKeys(v.entries) && forall i :: 0 <= i < |v.entries| ==> WellFormed(v.entries[i].1)
  }

  function KeySet(entries: Entries): set<string>
  {
    set i | 0 <= i < |entries| :: entries[i].0
  }

  lemma KeySetConcat(a: Entries, b: Entries)
    ensures KeySet(a + b) == KeySet(a) + KeySet(b)
  {
    forall x | x in KeySet(a + b) ensures x in KeySet(a) + KeySet(b) {
      var i :| 0 <= i < |a + b| && (a + b)[i].0 == x;
      if i >= |a| {
        assert b[i - |a|].0 == x;
      }
    }
    forall x | x in KeySet(a) + KeySet(b) ensures x in KeySet(a + b) {
      if x in KeySet(a) {
        var i :| 0 <= i < |a| && a[i].0 == x;
        assert (a + b)[i].0 == x;
      } else {
        var i :| 0 <= i < |b| && b[i].0 == x;
        assert (a + b)[|a| + i].0 == x;
      }
    }
  }

  lemma UniqueCons(p: (string, Value), m: Entries)
    requires UniqueKeys(m) && p.0 !in KeySet(m)
    ensures UniqueKeys([p] + m)
  {
    forall i, j | 0 <= i < j < |[p] + m| ensures ([p] + m)[i].0 != ([p] + m)[j].0 {
      if i == 0 {
        assert ([p] + m)[j].0 == m[j - 1].0;
      }
    }
  }

  /** `key in d` and `d[key]`: the value stored under `key`, if any. */
  function Find(entries: Entries, key: string): (r: Option<Value>)
    ensures r.None? <==> key !in KeySet(entries)
    ensures r.Some? ==> (key, r.value) in entries
  {
    if |entries| == 0 then None
    else if entries[0].0 == key then Some(entries[0].1)
    else
      var r := Find(entries[1..], key);
      assert KeySet(entries) == {entries[0].0} + KeySet(entries[1..]);
      r
  }

  lemma {:induction false} FindUnique(entries: Entries, i: nat)
    requires UniqueKeys(entries) && i < |entries|
    ensures Find(entries, entries[i].0) == Some(entries[i].1)
  {
    if i > 0 {
      FindUnique(entries[1..], i - 1);
    }
  }

  /** One step of `get_nested_value`: descend into `key` when the current value is a dict holding it. */
  function Step(v: Value, key: string): Option<Value>
  {
    if v.Dict? then Find(v.entries, key) else None
  }

  /** The value reached from `v` by following `keys`, or `Null` as soon as a key is absent or the
      current value is not a dict. */
  function Resolve(v: Value, keys: seq<string>): Value
  {
    if |keys| == 0 then v
    else match Step(v, keys[0])
      case Some(w) => Resolve(w, keys[1..])
      case None => Null
  }

  /** `get_nested_value(data, key_path)` as a value: the path is split on every `.`. Data that is not a dict
      resolves nothing, and a path without a dot is a single lookup. */
  function NestedValue(data: Value, keyPath: string): (v: Value)
    ensures !data.Dict? ==> v.Null?
    ensures '.' !in keyPath ==> v == (if data.Dict? && Find(data.entries, keyPath).Some?
                                      then Find(data.entries, keyPath).value else Null)
  {
    if '.' !in keyPath then
      SplitNoSep(keyPath, '.');
      assert [keyPath][1..] == [];
      assert Step(data, keyPath).Some? ==> Resolve(data, [keyPath]) == Resolve(Step(data, keyPath).value, []);
      Resolve(data, Split(keyPath, '.'))
    else Resolve(data, Split(keyPath, '.'))
  }

  /** Following a path in two parts is following the first part, then the second from where it ended
      (a failed lookup stays `Null`, since `Null` is not a dict). */
  lemma {:induction false} ResolveAppend(v: Value, a: seq<string>, b: seq<string>)
    ensures Resolve(v, a + b) == Resolve(Resolve(v, a), b)
    decreases |a|
  {
    if |a| == 0 {
      assert a + b == b;
    } else {
      assert (a + b)[0] == a[0] && (a + b)[1..] == a[1..] + b;
      match Step(v, a[0])
      case Some(w) => ResolveAppend(w, a[1..], b);
      case None =>
        if |b| > 0 {
          assert Resolve(Null, b) == Null;
        }
    }
  }

  /** get_nested_value answers `None` unless every segment is found in a dict; otherwise it answers the value
      stored under the last segment in the value reached by the others. */
  lemma {:induction false} ResolveLast(v: Value, keys: seq<string>, key: string)
    ensures Resolve(v, keys + [key]) ==
            match Step(Resolve(v, keys), key)
            case Some(w) => w
            case None => Null
  {
    ResolveAppend(v, keys, [key]);
  }

  /** build.py:106-120: walks the segments left to right, reassigning `value`, and gives up with `None`
      at the first segment that is absent or meets a non-dict. */
  method GetNestedValue(data: Value, keyPath: string) returns (value: Value)
    ensures value == NestedValue(data, keyPath)
  {
    var keys := Split(keyPath, '.');
    value := data;
    var i := 0;
    while i < |keys|
      invariant 0 <= i <= |keys|
      invariant Resolve(value, keys[i..]) == NestedValue(data, keyPath)
    {
      var key := keys[i];
      if value.Dict? && Find(value.entries, key).Some? {
        value := Find(value.entries, key).value;
      } else {
        return Null;
      }
      i := i + 1;
    }
  }

  /** The dotted key of child `k` under `parent`: `f"{parent}.{k}" if parent else k`. */
  function JoinKey(parent: string, k: string): string
  {
    if parent != "" then parent + "." + k else k
  }

  /** `d[key] = value` on a dict with distinct keys: the pair is stored and every pair under another key
      stays (`PutExisting` and `PutAppends` say where). */
  function Put(m: Entries, key: string, value: Value): (r: Entries)
    requires UniqueKeys(m)
    ensures UniqueKeys(r)
    ensures KeySet(r) == KeySet(m) + {key}
    ensures (key, value) in r
    ensures forall p :: p in r ==> p in m || p == (key, value)
  {
    if |m| == 0 then
      assert [(key, value)][0].0 == key;
      [(key, value)]
    else if m[0].0 == key then
      KeySetConcat([m[0]], m[1..]);
      KeySetConcat([(key, value)], m[1..]);
      assert [m[0]] + m[1..] == m;
      assert KeySet([m[0]]) == {key};
      assert [(key, value)][0].0 == key;
      assert KeySet([(key, value)]) == {key};
      assert forall j :: 0 <= j < |m[1..]| ==> m[1..][j].0 == m[j + 1].0;
      UniqueCons((key, value), m[1..]);
      [(key, value)] + m[1..]
    else
      var rest := Put(m[1..], key, value);
      KeySetConcat([m[0]], m[1..]);
      KeySetConcat([m[0]], rest);
      assert [m[0]] + m[1..] == m;
      assert KeySet([m[0]]) == {m[0].0};
      assert forall j :: 0 <= j < |m[1..]| ==> m[1..][j].0 == m[j + 1].0;
      assert m[0].0 !in KeySet(m[1..]);
      UniqueCons(m[0], rest);
      [m[0]] + rest
  }

  /** Assigning to an existing key keeps every position and replaces only that key's value. */
  lemma {:induction false} PutExisting(m: Entries, key: string, value: Value)
    requires UniqueKeys(m) && key in KeySet(m)
    ensures |Put(m, key, value)| == |m|
    ensures forall i :: 0 <= i < |m| ==> Put(m, key, value)[i] == if m[i].0 == key then (key, value) else m[i]
  {
    var r := Put(m, key, value);
    if m[0].0 == key {
      assert r == [(key, value)] + m[1..];
      forall i | 0 < i < |m| ensures r[i] == m[i] && m[i].0 != key {
        assert r[i] == m[1..][i - 1];
      }
    } else {
      var rest := Put(m[1..], key, value);
      assert r == [m[0]] + rest;
      assert UniqueKeys(m[1..]) by {
        assert forall j :: 0 <= j < |m[1..]| ==> m[1..][j] == m[j + 1];
      }
      assert key in KeySet(m[1..]) by {
        assert KeySet(m) == {m[0].0} + KeySet(m[1..]);
      }
      PutExisting(m[1..], key, value);
      forall i | 0 < i < |m| ensures r[i] == if m[i].0 == key then (key, value) else m[i] {
        assert r[i] == rest[i - 1] && m[1..][i - 1] == m[i];
      }
    }
  }

  /** Assigning to a new key appends the pair. */
  lemma {:induction false} PutAppends(m: Entries, key: string, value: Value)
    requires UniqueKeys(m) && key !in KeySet(m)
    ensures Put(m, key, value) == m + [(key, value)]
  {
    if |m| > 0 {
      assert KeySet(m) == KeySet([m[0]]) + KeySet(m[1..]) by {
        KeySetConcat([m[0]], m[1..]);
        assert [m[0]] + m[1..] == m;
      }
      assert KeySet([m[0]]) == {m[0].0} by {
        assert [m[0]][0].0 == m[0].0;
      }
      assert UniqueKeys(m[1..]) by {
        assert forall j :: 0 <= j < |m[1..]| ==> m[1..][j] == m[j + 1];
      }
      var rest := Put(m[1..], key, value);
      assert Put(m, key, value) == [m[0]] + rest;
      PutAppends(m[1..], key, value);
      assert [m[0]] + (m[1..] + [(key, value)]) == m + [(key, value)];
    }
  }

  /** The position of the first pair with key `key`, or `|items|` when there is none. */
  function FirstIndex(items: Entries, key: string): (r: nat)
    ensures r <= |items|
    ensures r < |items| <==> key in KeySet(items)
    ensures r < |items| ==> items[r].0 == key
    ensures forall j :: 0 <= j < r ==> items[j].0 != key
  {
    if |items| == 0 then 0
    else if items[0].0 == key then 0
    else
      assert KeySet(items) == {items[0].0} + KeySet(items[1..]);
      1 + FirstIndex(items[1..], key)
  }

  /** Python `dict(items)`: one entry per distinct key, at the position of its first occurrence,
      holding the value of its last occurrence (`DictOfLastWins`, `DictOfFirstOrder`). */
  function DictOf(items: Entries): (m: Entries)
    ensures UniqueKeys(m)
    ensures KeySet(m) == KeySet(items)
    ensures forall p :: p in m ==> p in items
  {
    if |items| == 0 then []
    else
      var init := items[..|items| - 1];
      var last := items[|items| - 1];
      assert items == init + [last];
      KeySetConcat(init, [last]);
      Put(DictOf(init), last.0, last.1)
  }

  /** A pair that no later pair overrides survives `dict(items)`: each key holds the value of its last
      occurrence. */
  lemma {:induction false} DictOfLastWins(items: Entries)
    ensures forall i :: 0 <= i < |items| && (forall j :: i < j < |items| ==> items[j].0 != items[i].0) ==>
              items[i] in DictOf(items)
  {
    if |items| > 0 {
      var init := items[..|items| - 1];
      var last := items[|items| - 1];
      assert items == init + [last];
      DictOfLastWins(init);
      var d := DictOf(init);
      if last.0 in KeySet(d) {
        PutExisting(d, last.0, last.1);
      } else {
        PutAppends(d, last.0, last.1);
      }
      forall i | 0 <= i < |items| && (forall j :: i < j < |items| ==> items[j].0 != items[i].0)
        ensures items[i] in DictOf(items)
      {
        if i < |init| {
          assert forall j :: i < j < |init| ==> init[j].0 == items[j].0;
          assert init[i] == items[i] && init[i] in d;
          assert items[i].0 != last.0;
        }
      }
    }
  }

  /** Appending a pair leaves the first occurrence of a key already present where it was. */
  lemma FirstIndexAppend(init: Entries, last: (string, Value), x: string)
    requires FirstIndex(init, x) < |init|
    ensures FirstIndex(init + [last], x) == FirstIndex(init, x)
  {
    var r := FirstIndex(init, x);
    assert (init + [last])[r] == init[r];
  }

  /** The keys of `m` appear in the order of their first occurrence in `items`. */
  predicate InFirstOrder(m: Entries, items: Entries)
  {
    forall i, j :: 0 <= i < j < |m| ==> FirstIndex(items, m[i].0) < FirstIndex(items, m[j].0)
  }

  /** `dict(items)` keeps its keys in the order of their first occurrence in `items`. */
  lemma {:induction false} DictOfFirstOrder(items: Entries)
    ensures InFirstOrder(DictOf(items), items)
  {
    if |items| > 0 {
      var init := items[..|items| - 1];
      var last := items[|items| - 1];
      assert items == init + [last];
      DictOfFirstOrder(init);
      PutFirstOrder(init, last, DictOf(init));
    }
  }

  /** Storing the last pair keeps the keys in first-occurrence order. */
  lemma PutFirstOrder(init: Entries, last: (string, Value), d: Entries)
    requires UniqueKeys(d) && KeySet(d) == KeySet(init) && InFirstOrder(d, init)
    ensures InFirstOrder(Put(d, last.0, last.1), init + [last])
  {
    var m := Put(d, last.0, last.1);
    var grows := last.0 !in KeySet(d);
    if grows {
      PutAppends(d, last.0, last.1);
    } else {
      PutExisting(d, last.0, last.1);
    }
    assert forall k :: 0 <= k < |d| ==> m[k].0 == d[k].0;
    forall i, j | 0 <= i < j < |m| ensures FirstIndex(init + [last], m[i].0) < FirstIndex(init + [last], m[j].0) {
      OrderStep(init, last, d, i, j);
      if j == |d| {
        assert grows && m[j] == last;
      }
    }
  }

  /** One step of `DictOfFirstOrder`: the first positions of keys of `dict(init)` survive appending `last`,
      and a key new in `last` comes after all of them. */
  lemma OrderStep(init: Entries, last: (string, Value), d: Entries, i: nat, j: nat)
    requires KeySet(d) == KeySet(init) && i < j <= |d|
    requires InFirstOrder(d, init)
    ensures j < |d| ==> FirstIndex(init + [last], d[i].0) < FirstIndex(init + [last], d[j].0)
    ensures j == |d| && last.0 !in KeySet(d) ==> FirstIndex(init + [last], d[i].0) < FirstIndex(init + [last], last.0)
  {
    assert d[i].0 in KeySet(d);
    FirstIndexAppend(init, last, d[i].0);
    if j < |d| {
      assert d[j].0 in KeySet(d);
      FirstIndexAppend(init, last, d[j].0);
    } else if last.0 !in KeySet(d) {
      assert FirstIndex(init + [last], last.0) >= |init|;
    }
  }

  /** The pairs that `flatten_dict(d, parent)` collects in `items` from the first `n` entries of `d`. */
  function FlatItems(d: Value, n: nat, parent: string): (items: Entries)
    requires d.Dict? && n <= |d.entries|
    decreases d, n
  {
    if n == 0 then []
    else
      var k := d.entries[n - 1].0;
      var v := d.entries[n - 1].1;
      var tail := if v.Dict? then Flatten(v, JoinKey(parent, k)) else [(JoinKey(parent, k), v)];
      FlatItems(d, n - 1, parent) + tail
  }

  /** `flatten_dict(d, parent)` (build.py:123-132): every non-dict value of the tree under its dotted
      path. The nested call's result is itself a dict, so duplicates are merged at every level. */
  function Flatten(d: Value, parent: string): (flat: Entries)
    requires d.Dict?
    ensures UniqueKeys(flat)
    decreases d, |d.entries| + 1
  {
    DictOf(FlatItems(d, |d.entries|, parent))
  }

  /** build.py:123-132 as written: a loop over the entries that appends leaves, extends with the
      recursive result for nested dicts, and finally builds a dict from the collected pairs. */
  method FlattenDict(d: Value, parentKey: string) returns (flat: Entries)
    requires d.Dict?
    ensures flat == Flatten(d, parentKey)
    decreases d
  {
    var items: Entries := [];
    var i := 0;
    while i < |d.entries|
      invariant 0 <= i <= |d.entries|
      invariant items == FlatItems(d, i, parentKey)
    {
      var k := d.entries[i].0;
      var v := d.entries[i].1;
      var newKey := JoinKey(parentKey, k);
      ghost var before := items;
      if v.Dict? {
        var nested := FlattenDict(v, newKey);
        items := items + nested;
      } else {
        items := items + [(newKey, v)];
      }
      assert items == FlatItems(d, i + 1, parentKey) by {
        assert before == FlatItems(d, i, parentKey);
      }
      i := i + 1;
    }
    flat := DictOf(items);
  }

  lemma {:induction false} FlatItemsLeaves(d: Value, n: nat, parent: string)
    requires d.Dict? && n <= |d.entries|
    ensures forall p :: p in FlatItems(d, n, parent) ==> !p.1.Dict?
    decreases d, n
  {
    if n > 0 {
      FlatItemsLeaves(d, n - 1, parent);
      var k := d.entries[n - 1].0;
      var v := d.entries[n - 1].1;
      var key := JoinKey(parent, k);
      var front := FlatItems(d, n - 1, parent);
      var tail := if v.Dict? then Flatten(v, key) else [(key, v)];
      assert FlatItems(d, n, parent) == front + tail;
      if v.Dict? {
        FlatItemsLeaves(v, |v.entries|, key);
        assert forall p :: p in tail ==> p in FlatItems(v, |v.entries|, key);
      }
    }
  }

  /** `flatten_dict` maps keys to non-dict values only. */
  lemma FlattenLeaves(d: Value, parent: string)
    requires d.Dict?
    ensures forall p :: p in Flatten(d, parent) ==> !p.1.Dict?
  {
    FlatItemsLeaves(d, |d.entries|, parent);
  }

  /** The dotted keys of the flattened data. */
  function FlatKeys(data: Value): set<string>
    requires data.Dict?
  {
    KeySet(Flatten(data, ""))
  }

  lemma {:induction false} UniqueKeysCount(entries: Entries)
    requires UniqueKeys(entries)
    ensures |KeySet(entries)| == |entries|
  {
    if |entries| > 0 {
      var rest := entries[1..];
      UniqueKeysCount(rest);
      assert KeySet(entries) == {entries[0].0} + KeySet(rest);
      assert entries[0].0 !in KeySet(rest);
    }
  }

  /** `count_data_keys` (build.py:135-137): the number of distinct dotted keys of the data. */
  function CountDataKeys(data: Value): (n: nat)
    requires data.Dict?
    ensures n == |FlatKeys(data)|
  {
    var flat := Flatten(data, "");
    UniqueKeysCount(flat);
    |flat|
  }

  /** No key anywhere in the tree contains a `.`. */
  predicate PlainKeys(v: Value)
  {
    v.Dict? ==> forall i :: 0 <= i < |v.entries| ==> '.' !in v.entries[i].0 && PlainKeys(v.entries[i].1)
  }

  /** No top-level empty key holds a dict (`flatten_dict` would drop that key from its children's paths). */
  predicate NoEmptyDictKey(v: Value)
  {
    v.Dict? ==> forall i :: 0 <= i < |v.entries| && v.entries[i].0 == "" ==> !v.entries[i].1.Dict?
  }

  lemma {:induction false} FlatItemsResolve(root: Value, segs: seq<string>, d: Value, n: nat, parent: string)
    requires d.Dict? && WellFormed(d) && PlainKeys(d) && n <= |d.entries|
    requires Resolve(root, segs) == d
    requires forall i :: 0 <= i < |segs| ==> '.' !in segs[i]
    requires parent == Join(segs, '.')
    requires segs != [] ==> parent != ""
    requires segs == [] ==> NoEmptyDictKey(d)
    ensures forall p :: p in FlatItems(d, n, parent) ==> NestedValue(root, p.0) == p.1
    decreases d, n
  {
    if n > 0 {
      FlatItemsResolve(root, segs, d, n - 1, parent);
      var k := d.entries[n - 1].0;
      var v := d.entries[n - 1].1;
      var key := JoinKey(parent, k);
      var segs' := segs + [k];
      assert '.' !in k;
      // The dotted key is the path to the entry, joined with `.`.
      if segs == [] {
        assert key == k && segs' == [k];
      } else {
        JoinAppend(segs, k, '.');
        assert key == Join(segs', '.');
      }
      assert forall i :: 0 <= i < |segs'| ==> '.' !in segs'[i];
      SplitJoin(segs', '.');
      // Following that path reaches the entry's value.
      FindUnique(d.entries, n - 1);
      ResolveLast(root, segs, k);
      assert Resolve(root, segs') == v;
      assert NestedValue(root, key) == v;
      if v.Dict? {
        assert WellFormed(v) && PlainKeys(v);
        assert key != "";
        FlatItemsResolve(root, segs', v, |v.entries|, key);
      }
    }
  }

  /** When no key contains a `.` and no top-level empty key holds a dict, every pair `(k, v)` of
      `flatten_dict(data)` satisfies `get_nested_value(data, k) == v`. */
  lemma FlattenResolves(data: Value)
    requires data.Dict? && WellFormed(data) && PlainKeys(data) && NoEmptyDictKey(data)
    ensures forall p :: p in Flatten(data, "") ==> NestedValue(data, p.0) == p.1
  {
    FlatItemsResolve(data, [], data, |data.entries|, "");
  }

  /** Without the top-level condition the correspondence fails: `{"": {"x": 1}}` flattens to `{"x": 1}`,
      yet `get_nested_value` finds nothing under `x`. */
  lemma EmptyTopKeyBreaksLookup()
    ensures var data := Dict([("", Dict([("x", Leaf("1"))]))]);
            Flatten(data, "") == [("x", Leaf("1"))] && NestedValue(data, "x") == Null
  {
    var leaf := ("x", Leaf("1"));
    var inner := Dict([leaf]);
    var data := Dict([("", inner)]);
    assert FlatItems(inner, 0, "") == [];
    assert FlatItems(inner, 1, "") == [leaf];
    assert DictOf([leaf]) == [leaf];
    assert Flatten(inner, "") == [leaf];
    assert FlatItems(data, 1, "") == [leaf];
    SplitNoSep("x", '.');
    assert Find(data.entries, "x") == None;
  }

  /** The number of non-dict values in the tree: a non-dict value is one leaf, and a dict holds the leaves
      of its values (an empty dict holds none). */
  function LeafCount(v: Value): nat
    decreases v, if v.Dict? then |v.entries| + 1 else 0
  {
    if v.Dict? then LeafSum(v, |v.entries|) else 1
  }

  /** The leaves under the first `n` entries of `d`. */
  function LeafSum(d: Value, n: nat): nat
    requires d.Dict? && n <= |d.entries|
    decreases d, n
  {
    if n == 0 then 0 else LeafSum(d, n - 1) + LeafCount(d.entries[n - 1].1)
  }

  /** `dict(items)` of pairs with distinct keys is those pairs. */
  lemma {:induction false} DictOfUnique(items: Entries)
    requires UniqueKeys(items)
    ensures DictOf(items) == items
  {
    if |items| > 0 {
      var init := items[..|items| - 1];
      var last := items[|items| - 1];
      assert items == init + [last];
      assert UniqueKeys(init);
      DictOfUnique(init);
      assert last.0 !in KeySet(init);
      PutAppends(init, last.0, last.1);
    }
  }

  /** Pairs with distinct keys followed by pairs with distinct keys, no key shared between them. */
  lemma UniqueConcat(a: Entries, b: Entries)
    requires UniqueKeys(a) && UniqueKeys(b)
    requires forall i, j :: 0 <= i < |a| && 0 <= j < |b| ==> a[i].0 != b[j].0
    ensures UniqueKeys(a + b)
  {
    forall i, j | 0 <= i < j < |a + b| ensures (a + b)[i].0 != (a + b)[j].0 {
      if j < |a| {
      } else if i >= |a| {
        assert (a + b)[i] == b[i - |a|] && (a + b)[j] == b[j - |a|];
      } else {
        assert (a + b)[i] == a[i] && (a + b)[j] == b[j - |a|];
      }
    }
  }

  /** Inside the subtree reached by the dot-free path `segs`, each dotted key `flatten_dict` collects from
      the first `n` entries splits into `segs`, then the key of one of those entries, then the rest of the
      path. So distinct leaves give distinct keys, and there is one pair per leaf. */
  lemma {:induction false} FlatItemsDistinct(segs: seq<string>, d: Value, n: nat, parent: string)
    requires d.Dict? && WellFormed(d) && PlainKeys(d) && n <= |d.entries|
    requires forall i :: 0 <= i < |segs| ==> '.' !in segs[i]
    requires parent == Join(segs, '.')
    requires segs != [] ==> parent != ""
    requires segs == [] ==> NoEmptyDictKey(d)
    ensures forall p :: p in FlatItems(d, n, parent) ==>
              |segs| < |Split(p.0, '.')| && Split(p.0, '.')[..|segs|] == segs &&
              FirstIndex(d.entries, Split(p.0, '.')[|segs|]) < n
    ensures UniqueKeys(FlatItems(d, n, parent))
    ensures |FlatItems(d, n, parent)| == LeafSum(d, n)
    decreases d, n
  {
    if n > 0 {
      FlatItemsDistinct(segs, d, n - 1, parent);
      var k := d.entries[n - 1].0;
      var v := d.entries[n - 1].1;
      var key := JoinKey(parent, k);
      assert '.' !in k && WellFormed(v) && PlainKeys(v);
      assert v.Dict? && segs == [] ==> k != "";
      JoinedKey(segs, parent, k);
      assert FirstIndex(d.entries, k) == n - 1 by {
        assert UniqueKeys(d.entries);
      }
      var front := FlatItems(d, n - 1, parent);
      var tail := if v.Dict? then Flatten(v, key) else [(key, v)];
      assert FlatItems(d, n, parent) == front + tail;
      FlatTail(segs + [k], v, key);
      KeysAfterEntry(segs, d.entries, n, front, tail);
    }
  }

  /** The dotted key of child `k` under the path `segs` is the path extended by `k`, joined with `.`. */
  lemma JoinedKey(segs: seq<string>, parent: string, k: string)
    requires forall i :: 0 <= i < |segs| ==> '.' !in segs[i]
    requires parent == Join(segs, '.') && (segs != [] ==> parent != "") && '.' !in k
    ensures JoinKey(parent, k) == Join(segs + [k], '.')
    ensures forall i :: 0 <= i < |segs + [k]| ==> '.' !in (segs + [k])[i]
    ensures segs != [] || k != "" ==> JoinKey(parent, k) != ""
  {
    if segs == [] {
      assert segs + [k] == [k];
    } else {
      JoinAppend(segs, k, '.');
    }
  }

  /** The step of `FlatItemsDistinct`: the keys collected from entry `n - 1` go through that entry's key,
      which no earlier entry has, so they differ from all keys collected before. */
  lemma KeysAfterEntry(segs: seq<string>, entries: Entries, n: nat, front: Entries, tail: Entries)
    requires 0 < n <= |entries| && FirstIndex(entries, entries[n - 1].0) == n - 1
    requires UniqueKeys(front) && UniqueKeys(tail)
    requires forall p :: p in front ==>
               |segs| < |Split(p.0, '.')| && Split(p.0, '.')[..|segs|] == segs &&
               FirstIndex(entries, Split(p.0, '.')[|segs|]) < n - 1
    requires forall p :: p in tail ==>
               |segs + [entries[n - 1].0]| <= |Split(p.0, '.')| &&
               Split(p.0, '.')[..|segs + [entries[n - 1].0]|] == segs + [entries[n - 1].0]
    ensures forall p :: p in front + tail ==>
              |segs| < |Split(p.0, '.')| && Split(p.0, '.')[..|segs|] == segs &&
              FirstIndex(entries, Split(p.0, '.')[|segs|]) < n
    ensures UniqueKeys(front + tail)
  {
    var k := entries[n - 1].0;
    var segs' := segs + [k];
    forall p | p in tail
      ensures |segs| < |Split(p.0, '.')| && Split(p.0, '.')[..|segs|] == segs && Split(p.0, '.')[|segs|] == k
    {
      PrefixThrough(Split(p.0, '.'), segs, k);
    }
    forall i, j | 0 <= i < |front| && 0 <= j < |tail| ensures front[i].0 != tail[j].0 {
      assert front[i] in front && tail[j] in tail;
    }
    UniqueConcat(front, tail);
  }

  /** A path that starts with `segs + [k]` starts with `segs` and has `k` next. */
  lemma PrefixThrough(path: seq<string>, segs: seq<string>, k: string)
    requires |segs + [k]| <= |path| && path[..|segs + [k]|] == segs + [k]
    ensures |segs| < |path| && path[..|segs|] == segs && path[|segs|] == k
  {
    assert path[..|segs + [k]|][..|segs|] == path[..|segs|];
    assert path[..|segs + [k]|][|segs|] == path[|segs|];
  }

  /** What `flatten_dict` collects for one entry reached by the dot-free path `segs`: the leaf itself under
      the joined path, or the flattened nested dict, whose keys all extend that path. */
  lemma {:induction false} FlatTail(segs: seq<string>, v: Value, key: string)
    requires WellFormed(v) && PlainKeys(v)
    requires |segs| >= 1 && forall i :: 0 <= i < |segs| ==> '.' !in segs[i]
    requires key == Join(segs, '.')
    requires v.Dict? ==> key != ""
    ensures var tail := if v.Dict? then Flatten(v, key) else [(key, v)];
            UniqueKeys(tail) && |tail| == LeafCount(v) &&
            forall p :: p in tail ==> |segs| <= |Split(p.0, '.')| && Split(p.0, '.')[..|segs|] == segs
    decreases v, if v.Dict? then |v.entries| + 1 else 0
  {
    if v.Dict? {
      FlatItemsDistinct(segs, v, |v.entries|, key);
      DictOfUnique(FlatItems(v, |v.entries|, key));
    } else {
      SplitJoin(segs, '.');
    }
  }

  /** When no key contains a `.` and no top-level empty key holds a dict, `count_data_keys` counts every
      leaf of the tree: distinct paths to leaves give distinct dotted keys. */
  lemma CountDataKeysLeaves(data: Value)
    requires data.Dict? && WellFormed(data) && PlainKeys(data) && NoEmptyDictKey(data)
    ensures CountDataKeys(data) == LeafCount(data)
  {
    FlatItemsDistinct([], data, |data.entries|, "");
    DictOfUnique(FlatItems(data, |data.entries|, ""));
  }

  /** A key containing `.` can collide with a nested path: `{"a.b": 1, "a": {"b": 2}}` has two leaves but
      one flattened key, which holds the later value. */
  lemma DottedKeyCollision()
    ensures var data := Dict([("a.b", Leaf("1")), ("a", Dict([("b", Leaf("2"))]))]);
            LeafCount(data) == 2 && Flatten(data, "") == [("a.b", Leaf("2"))] && CountDataKeys(data) == 1
  {
    var first := ("a.b", Leaf("1"));
    var data := Dict([first, ("a", Dict([("b", Leaf("2"))]))]);
    FlattenNestedB();
    assert FlatItems(data, 1, "") == [first];
    assert FlatItems(data, 2, "") == [first, ("a.b", Leaf("2"))];
    assert DictOf([first]) == [first];
  }

  /** The nested dict of `DottedKeyCollision` under `a`. */
  lemma FlattenNestedB()
    ensures Flatten(Dict([("b", Leaf("2"))]), "a") == [("a.b", Leaf("2"))]
    ensures LeafCount(Dict([("b", Leaf("2"))])) == 1
  {
    var inner := Dict([("b", Leaf("2"))]);
    assert JoinKey("a", "b") == "a.b";
    assert FlatItems(inner, 1, "a") == [("a.b", Leaf("2"))];
    assert DictOf([("a.b", Leaf("2"))]) == [("a.b", Leaf("2"))];
  }
}
