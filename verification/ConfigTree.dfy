/** Configuration trees (`Flux_Config`): reading and writing by dotted keys,
    also through nodes that share the tree, and the merge of imports. */
module ConfigTree {
  import opened Wrappers
  import opened StringOffset
  import Strings

  datatype Atom = Null | Bool(b: bool) | Int(i: int) | Str(s: string)

  /** A scalar, or an array with its keys; the order of the keys is left out. */
  datatype Value = Scalar(atom: Atom) | Arr(entries: map<string, Value>)

  type Tree = map<string, Value>

  const NULL: Value := Scalar(Null)
  const EMPTY: Value := Arr(map[])

  // ---- paths --------------------------------------------------------------------

  function At(v: Value, path: seq<string>): Option<Value>
    decreases |path|
  {
    if path == [] then Some(v)
    else if v.Arr? && path[0] in v.entries then At(v.entries[path[0]], path[1..])
    else None
  }

  /** The tree with another value at an existing path. */
  function Replace(v: Value, path: seq<string>, x: Value): Value
    requires At(v, path).Some?
    decreases |path|
  {
    if path == [] then x
    else Arr(v.entries[path[0] := Replace(v.entries[path[0]], path[1..], x)])
  }

  lemma {:induction false} AtAppend(v: Value, p: seq<string>, q: seq<string>)
    ensures At(v, p + q) == if At(v, p).Some? then At(At(v, p).value, q) else None
    decreases |p|
  {
    if p == [] {
      assert p + q == q;
    } else if v.Arr? && p[0] in v.entries {
      assert (p + q)[1..] == p[1..] + q;
      AtAppend(v.entries[p[0]], p[1..], q);
    }
  }

  lemma {:induction false} ReplaceAppend(v: Value, p: seq<string>, q: seq<string>, x: Value)
    requires At(v, p).Some? && At(At(v, p).value, q).Some?
    ensures At(v, p + q).Some? && Replace(v, p + q, x) == Replace(v, p, Replace(At(v, p).value, q, x))
    decreases |p|
  {
    AtAppend(v, p, q);
    if p == [] {
      assert p + q == q;
    } else {
      assert (p + q)[1..] == p[1..] + q && (p + q)[0] == p[0];
      ReplaceAppend(v.entries[p[0]], p[1..], q, x);
    }
  }

  lemma {:induction false} ReplaceTwice(v: Value, p: seq<string>, x: Value, y: Value)
    requires At(v, p).Some?
    ensures At(Replace(v, p, x), p) == Some(x) && Replace(Replace(v, p, x), p, y) == Replace(v, p, y)
    decreases |p|
  {
    if p != [] {
      ReplaceTwice(v.entries[p[0]], p[1..], x, y);
      var sub := Replace(v.entries[p[0]], p[1..], x);
      assert v.entries[p[0] := sub][p[0] := Replace(sub, p[1..], y)] == v.entries[p[0] := Replace(sub, p[1..], y)];
    }
  }

  lemma {:induction false} ReplaceSame(v: Value, p: seq<string>)
    requires At(v, p).Some?
    ensures Replace(v, p, At(v, p).value) == v
    decreases |p|
  {
    if p != [] {
      ReplaceSame(v.entries[p[0]], p[1..]);
      assert v.entries[p[0] := v.entries[p[0]]] == v.entries;
    }
  }

  // ---- get and set ------------------------------------------------------------------

  /** `empty`: such a key is never looked up. */
  predicate IsEmptyKey(key: string) {
    key == "" || key == "0"
  }

  /** What `get` returns: null for what is not there. */
  function Found(v: Option<Value>): Value {
    if v.Some? then v.value else NULL
  }

  function Get(v: Value, key: string): Value {
    if IsEmptyKey(key) then NULL else Found(At(v, Strings.Explode(".", key)))
  }

  datatype Options = Options(overwrite: bool, force: bool)

  /** The value is stored; or `set` returns false; or a scalar stands in the way,
      which PHP does not take for an array, and the value is returned although it
      is not stored; or PHP throws an error, since no reference to the inside of a
      string can be taken. */
  datatype Outcome = Stored | Refused | Blocked | Threw

  /** Null and false turn into an array when a key of theirs is written. */
  predicate BecomesArray(v: Value) {
    v.Arr? || v.atom == Null || v.atom == Bool(false)
  }

  /** The first byte of a value as a string; null, false and "" have none. */
  function FirstByte(x: Value): Option<char> {
    match x
    case Arr(_) => Some('A')
    case Scalar(Null) => None
    case Scalar(Bool(b)) => if b then Some('1') else None
    case Scalar(Int(i)) => Some(if i < 0 then '-' else LeadingDigit(i))
    case Scalar(Str(t)) => if t == "" then None else Some(t[0])
  }

  function LeadingDigit(n: nat): char {
    if n < 10 then '0' + n as char else LeadingDigit(n / 10)
  }

  /** The byte is the first one PHP prints for the value. */
  lemma FirstByteIsPrinted(n: nat, t: string)
    ensures FirstByte(Scalar(Int(n))) == Some(Printed(n)[0])
    ensures n > 0 ==> FirstByte(Scalar(Int(0 - n))) == Some('-')
    ensures FirstByte(Scalar(Bool(true))) == Some("1"[0]) && FirstByte(Arr(map[])) == Some("Array"[0])
    ensures FirstByte(NULL) == FirstByte(Scalar(Bool(false))) == FirstByte(Scalar(Str(""))) == None
    ensures t != "" ==> FirstByte(Scalar(Str(t))) == Some(t[0])
  {
    LeadingIsFirst(n);
  }

  lemma {:induction false} LeadingIsFirst(n: nat)
    ensures LeadingDigit(n) == Printed(n)[0]
  {
    if n >= 10 { LeadingIsFirst(n / 10); }
  }

  predicate IsString(v: Value) {
    v.Scalar? && v.atom.Str?
  }

  /** A scalar after `$v[$key] = $x`: PHP 7 writes a byte into a string, and
      leaves numbers and true alone. */
  function Overwritten(v: Value, key: string, x: Value): Value {
    if IsString(v) && FirstByte(x).Some? then Scalar(Str(WithByte(v.atom.s, IntOf(key), FirstByte(x).value))) else v
  }

  /** The byte written is another than the one at the offset. */
  predicate SpoilsString(v: Value, key: string, x: Value) {
    IsString(v) && FirstByte(x).Some? && IsOther(v.atom.s, IntOf(key), FirstByte(x).value)
  }

  lemma OverwritingSpoils(v: Value, key: string, x: Value)
    ensures Overwritten(v, key, x) != v <==> SpoilsString(v, key, x)
  {
    if IsString(v) && FirstByte(x).Some? { WriteChanges(v.atom.s, IntOf(key), FirstByte(x).value); }
  }

  function Entries(v: Value): Tree {
    if v.Arr? then v.entries else map[]
  }

  /** What `set` leaves below the node. */
  function Put(v: Value, keys: seq<string>, x: Value, o: Options): (Value, Outcome)
    requires keys != []
    decreases |keys|
  {
    var key := keys[0];
    if |keys| == 1 then
      if v.Arr? && key in v.entries && !o.overwrite then (v, Refused)
      else if BecomesArray(v) then (Arr(Entries(v)[key := x]), Stored)
      else (Overwritten(v, key, x), Blocked)
    else if v.Arr? && key in v.entries then
      var below := Put(v.entries[key], keys[1..], x, o);
      (Arr(v.entries[key := below.0]), below.1)
    else if !o.force then (v, Refused)
    else if BecomesArray(v) then
      var below := Put(EMPTY, keys[1..], x, o);
      (Arr(Entries(v)[key := below.0]), below.1)
    else (Overwritten(v, key, EMPTY), if IsString(v) then Threw else Blocked)
  }

  /** Get after set: a stored value is found again. */
  lemma {:induction false} PutIsFound(v: Value, keys: seq<string>, x: Value, o: Options)
    requires keys != [] && Put(v, keys, x, o).1.Stored?
    ensures At(Put(v, keys, x, o).0, keys) == Some(x)
    decreases |keys|
  {
    if |keys| == 1 {
      assert keys[1..] == [];
    } else if v.Arr? && keys[0] in v.entries {
      PutIsFound(v.entries[keys[0]], keys[1..], x, o);
    } else {
      PutIsFound(EMPTY, keys[1..], x, o);
    }
  }

  /** Writing a key below a scalar: null and false make way for an array, true and
      numbers stay and nothing is stored. */
  lemma WhatScalarsBecome(atom: Atom, keys: seq<string>, x: Value, o: Options)
    requires keys != [] && !atom.Str? && (|keys| == 1 || o.force)
    ensures atom == Null || atom == Bool(false) ==>
      Put(Scalar(atom), keys, x, o).1 == Stored && At(Put(Scalar(atom), keys, x, o).0, keys) == Some(x)
    ensures atom == Bool(true) || atom.Int? ==> Put(Scalar(atom), keys, x, o) == (Scalar(atom), Blocked)
  {
    if atom == Null || atom == Bool(false) {
      if |keys| > 1 { NewNodesStore(keys[1..], x, o); }
      PutIsFound(Scalar(atom), keys, x, o);
    }
  }

  lemma {:induction false} NewNodesStore(keys: seq<string>, x: Value, o: Options)
    requires keys != []
    ensures Put(EMPTY, keys, x, o).1.Stored? <==> |keys| == 1 || o.force
    ensures Put(EMPTY, keys, x, o).1.Stored? || Put(EMPTY, keys, x, o).1.Refused?
    decreases |keys|
  {
    if |keys| > 1 { NewNodesStore(keys[1..], x, o); }
  }

  predicate IsPrefix(p: seq<string>, q: seq<string>) {
    p <= q
  }

  /** Disjoint paths: a write changes nothing at a path that is neither on the
      way to the key nor below it. */
  lemma {:induction false} PutFrames(v: Value, keys: seq<string>, x: Value, o: Options, q: seq<string>)
    requires keys != [] && !IsPrefix(keys, q) && !IsPrefix(q, keys)
    ensures At(Put(v, keys, x, o).0, q) == At(v, q)
    decreases |keys|
  {
    if q[0] == keys[0] && |keys| > 1 {
      assert q == [q[0]] + q[1..] && keys == [keys[0]] + keys[1..];
      if v.Arr? && keys[0] in v.entries {
        PutFrames(v.entries[keys[0]], keys[1..], x, o, q[1..]);
      } else {
        PutFrames(EMPTY, keys[1..], x, o, q[1..]);
        assert q[1..] != [];
      }
    }
  }

  /** `small` is kept in `big`: no scalar changed, no key lost. */
  predicate Extends(small: Value, big: Value)
    decreases small
  {
    if small.Scalar? then big == small
    else big.Arr? && forall k :: k in small.entries ==> k in big.entries && Extends(small.entries[k], big.entries[k])
  }

  lemma {:induction false} ExtendsRefl(v: Value)
    ensures Extends(v, v)
  {
    if v.Arr? {
      forall k | k in v.entries ensures Extends(v.entries[k], v.entries[k]) { ExtendsRefl(v.entries[k]); }
    }
  }

  lemma {:induction false} ExtendsTrans(a: Value, b: Value, c: Value)
    requires Extends(a, b) && Extends(b, c)
    ensures Extends(a, c)
    decreases a
  {
    if a.Arr? {
      forall k | k in a.entries ensures k in c.entries && Extends(a.entries[k], c.entries[k]) {
        ExtendsTrans(a.entries[k], b.entries[k], c.entries[k]);
      }
    }
  }

  /** A scalar that the write would change: a null or a false that becomes an
      array, or a string with another byte at the offset the key stands for (the
      byte is `A`, of an empty array, where a node is to be created). One on the
      way needs `force`, the last one does not. */
  predicate ChangesAt(v: Value, keys: seq<string>, x: Value, o: Options, i: nat)
    requires i < |keys|
  {
    var node := At(v, keys[..i]);
    && node.Some? && node.value.Scalar? && (o.force || i == |keys| - 1)
    && (BecomesArray(node.value) || SpoilsString(node.value, keys[i], if i == |keys| - 1 then x else EMPTY))
  }

  predicate ChangesScalar(v: Value, keys: seq<string>, x: Value, o: Options) {
    exists i :: 0 <= i < |keys| && ChangesAt(v, keys, x, o, i)
  }

  lemma ChangesBelow(v: Value, keys: seq<string>, x: Value, o: Options)
    requires |keys| > 1 && v.Arr?
    ensures ChangesScalar(v, keys, x, o) <==> keys[0] in v.entries && ChangesScalar(v.entries[keys[0]], keys[1..], x, o)
  {
    forall i | 0 < i < |keys|
      ensures ChangesAt(v, keys, x, o, i) <==>
        keys[0] in v.entries && ChangesAt(v.entries[keys[0]], keys[1..], x, o, i - 1)
    {
      assert keys[..i][1..] == keys[1..][..i - 1] && keys[..i][0] == keys[0] && keys[i] == keys[1..][i - 1];
    }
    assert At(v, keys[..0]) == Some(v);
    if ChangesScalar(v, keys, x, o) {
      var i :| 0 <= i < |keys| && ChangesAt(v, keys, x, o, i);
      assert i > 0;
      assert ChangesAt(v.entries[keys[0]], keys[1..], x, o, i - 1);
    }
    if keys[0] in v.entries && ChangesScalar(v.entries[keys[0]], keys[1..], x, o) {
      var i :| 0 <= i < |keys[1..]| && ChangesAt(v.entries[keys[0]], keys[1..], x, o, i);
      assert ChangesAt(v, keys, x, o, i + 1);
    }
  }

  lemma ChangesHere(v: Value, keys: seq<string>, x: Value, o: Options)
    requires keys != [] && v.Scalar?
    ensures ChangesScalar(v, keys, x, o) <==> Put(v, keys, x, o).0 != v
  {
    assert At(v, keys[..0]) == Some(v);
    OverwritingSpoils(v, keys[0], if |keys| == 1 then x else EMPTY);
    forall i | 0 < i < |keys| ensures !ChangesAt(v, keys, x, o, i) { assert keys[..i] != []; }
    if ChangesAt(v, keys, x, o, 0) { assert ChangesScalar(v, keys, x, o); }
  }

  /** A set that stores nothing leaves the tree as it is, but for a string it
      writes into; it is refused exactly when the key is taken and may not be
      overwritten, or a node on the way is missing and may not be created. */
  lemma {:induction false} NotStored(v: Value, keys: seq<string>, x: Value, o: Options)
    requires keys != []
    ensures !Put(v, keys, x, o).1.Stored? ==> (Put(v, keys, x, o).0 == v <==> !ChangesScalar(v, keys, x, o))
    ensures Put(v, keys, x, o).1.Refused? <==>
      if At(v, keys).Some? then !o.overwrite else !o.force && At(v, keys[..|keys| - 1]).None?
    decreases |keys|
  {
    if |keys| == 1 {
      assert keys[1..] == [] && keys[..0] == [];
      assert At(v, []) == Some(v);
      if v.Scalar? { ChangesHere(v, keys, x, o); }
    } else if v.Arr? && keys[0] in v.entries {
      NotStored(v.entries[keys[0]], keys[1..], x, o);
      assert keys[..|keys| - 1][1..] == keys[1..][..|keys[1..]| - 1];
      ChangesBelow(v, keys, x, o);
      SameBelow(v.entries, keys[0], Put(v.entries[keys[0]], keys[1..], x, o).0);
    } else {
      NewNodesStore(keys[1..], x, o);
      if v.Scalar? { ChangesHere(v, keys, x, o); } else { ChangesBelow(v, keys, x, o); }
    }
  }

  lemma SameBelow(t: Tree, key: string, x: Value)
    requires key in t
    ensures Arr(t[key := x]) == Arr(t) <==> x == t[key]
  {
    assert t[key := t[key]] == t;
    assert t[key := x][key] == x;
  }

  lemma ExtendsUpdate(t: Tree, key: string, x: Value)
    ensures Extends(Arr(t), Arr(t[key := x])) <==> key in t ==> Extends(t[key], x)
  {
    forall k | k in t && k != key ensures Extends(t[k], t[key := x][k]) { ExtendsRefl(t[k]); }
  }

  /** Without overwriting, a set changes or loses a value exactly when it turns a
      null or a false into an array or writes another byte into a string. */
  lemma {:induction false} PutKeeps(v: Value, keys: seq<string>, x: Value, o: Options)
    requires keys != [] && !o.overwrite
    ensures Extends(v, Put(v, keys, x, o).0) <==> !ChangesScalar(v, keys, x, o)
    decreases |keys|
  {
    if v.Scalar? {
      ChangesHere(v, keys, x, o);
    } else {
      ExtendsRefl(v);
      if |keys| == 1 {
        assert At(v, keys[..0]) == Some(v);
        ExtendsUpdate(v.entries, keys[0], x);
      } else {
        ChangesBelow(v, keys, x, o);
        if keys[0] in v.entries {
          PutKeeps(v.entries[keys[0]], keys[1..], x, o);
          ExtendsUpdate(v.entries, keys[0], Put(v.entries[keys[0]], keys[1..], x, o).0);
        } else {
          ExtendsUpdate(v.entries, keys[0], Put(EMPTY, keys[1..], x, o).0);
        }
      }
    }
  }

  /** A string in the way: as the last node on the way it takes the first byte of
      the value; before that it stops a walk that creates nodes with an error,
      after taking the `A` of the empty array. */
  lemma StringInTheWay(v: Value, keys: seq<string>, x: Value, o: Options, i: nat)
    requires i < |keys| && At(v, keys[..i]).Some? && IsString(At(v, keys[..i]).value)
    ensures var node := At(v, keys[..i]).value;
      var below := Replace(v, keys[..i], Overwritten(node, keys[i], if i == |keys| - 1 then x else EMPTY));
      Put(v, keys, x, o) == if i == |keys| - 1 then (below, Blocked) else if o.force then (below, Threw)
        else (v, Refused)
  {
    assert keys == keys[..i] + keys[i..] && keys[i..][0] == keys[i];
    PutBelow(v, keys[..i], keys[i..], x, o);
    ReplaceSame(v, keys[..i]);
  }

  /** `set("A.1", "x")`, overwriting off, makes "axc" of the string "abc" at A. */
  lemma StringIsSpoiled(force: bool)
    ensures var v := Arr(map["A" := Scalar(Str("abc"))]);
      var (after, outcome) := Put(v, ["A", "1"], Scalar(Str("x")), Options(false, force));
      outcome.Blocked? && At(v, ["A"]) == Some(Scalar(Str("abc"))) && At(after, ["A"]) == Some(Scalar(Str("axc")))
  {
    OneIsOne();
    assert ["A", "1"][1..] == ["1"] && ["A"][1..] == [];
    assert "abc"[1 := 'x'] == "axc";
  }

  lemma OneIsOne()
    ensures IntOf("1") == 1
  {
    assert DigitCount("1"[1..]) == 0 && "1"[..1] == "1" && "1"[..0] == "";
  }

  /** A null of the user is lost to `set("A.B.C", ...)`, overwriting off. */
  lemma NullIsLost(x: Value)
    ensures var v, o := Arr(map["A" := NULL]), Options(false, true);
      At(v, ["A"]) == Some(NULL) && At(Put(v, ["A", "B", "C"], x, o).0, ["A"]) ==
        Some(Arr(map["B" := Arr(map["C" := x])]))
  {
    assert ["A", "B", "C"][1..] == ["B", "C"] && ["B", "C"][1..] == ["C"] && ["A"][1..] == [];
  }

  /** Written by key and read by key: the value comes back exactly when `get`
      looks the key up at all. */
  lemma GetAfterSet(v: Value, key: string, x: Value, o: Options)
    requires Put(v, Strings.Explode(".", key), x, o).1.Stored?
    ensures Get(Put(v, Strings.Explode(".", key), x, o).0, key) == x <==> !IsEmptyKey(key) || x == NULL
  {
    PutIsFound(v, Strings.Explode(".", key), x, o);
  }

  /** Stored under "0" and not found again. */
  lemma StoredNotFound(x: Value)
    requires x != NULL
    ensures var (tree, outcome) := Put(EMPTY, Strings.Explode(".", "0"), x, Options(true, true));
      outcome.Stored? && At(tree, ["0"]) == Some(x) && Get(tree, "0") == NULL
  {
    Strings.ExplodeAbsent(".", "0");
    assert ["0"][1..] == [];
  }

  /** A write through a node is the write through its parent, with the keys
      joined: the two share the tree. */
  lemma {:induction false} PutBelow(v: Value, p: seq<string>, q: seq<string>, x: Value, o: Options)
    requires At(v, p).Some? && q != []
    ensures var below := Put(At(v, p).value, q, x, o); Put(v, p + q, x, o) == (Replace(v, p, below.0), below.1)
    decreases |p|
  {
    if p == [] {
      assert p + q == q;
    } else {
      assert (p + q)[1..] == p[1..] + q && (p + q)[0] == p[0];
      PutBelow(v.entries[p[0]], p[1..], q, x, o);
    }
  }

  /** Creating the next node on the way beforehand makes no difference. */
  lemma CreateFirst(v: Value, p: seq<string>, q: seq<string>, x: Value, o: Options)
    requires At(v, p).Some? && |q| > 1 && o.force && BecomesArray(At(v, p).value) && q[0] !in Entries(At(v, p).value)
    ensures Put(Replace(v, p, Arr(Entries(At(v, p).value)[q[0] := EMPTY])), p + q, x, o) == Put(v, p + q, x, o)
  {
    var base := At(v, p).value;
    var created := Arr(Entries(base)[q[0] := EMPTY]);
    var v' := Replace(v, p, created);
    ReplaceTwice(v, p, created, Put(created, q, x, o).0);
    PutBelow(v', p, q, x, o);
    PutBelow(v, p, q, x, o);
    var below := Put(EMPTY, q[1..], x, o).0;
    assert Entries(base)[q[0] := EMPTY][q[0] := below] == Entries(base)[q[0] := below];
  }

  function ArrayKeys(t: Tree): set<string> {
    set k | k in t && t[k].Arr?
  }

  // ---- the objects --------------------------------------------------------------------

  /** The configuration array that nodes refer to. */
  class Store {
    var tree: Value

    constructor (tree: Value)
      ensures this.tree == tree
    {
      this.tree := tree;
    }
  }

  /** A node: a reference to the array at a path of the store. */
  class Config {
    const store: Store
    const path: seq<string>

    constructor (store: Store, path: seq<string>)
      ensures this.store == store && this.path == path
    {
      this.store, this.path := store, path;
    }

    predicate Valid()
      reads store
    {
      At(store.tree, path).Some? && At(store.tree, path).value.Arr?
    }

    function Node(): Value
      requires Valid()
      reads store
    {
      At(store.tree, path).value
    }

    /** `get`, for the value itself */
    method GetValue(key: string) returns (v: Value)
      requires Valid()
      ensures v == Get(Node(), key)
    {
      if IsEmptyKey(key) {
        return NULL;
      }
      var keys := Strings.Explode(".", key);
      var base := Node();
      for i := 0 to |keys|
        invariant At(Node(), keys) == At(base, keys[i..])
      {
        if !(base.Arr? && keys[i] in base.entries) {
          return NULL;
        }
        assert keys[i..][1..] == keys[i + 1..];
        base := base.entries[keys[i]];
      }
      return base;
    }

    /** `get`, for an array: a node that refers to it */
    method GetConfig(key: string) returns (child: Config?)
      requires Valid()
      ensures child != null <==> Get(Node(), key).Arr?
      ensures child != null ==> fresh(child) && child.store == store && child.path == path + Strings.Explode(".", key)
      ensures child != null ==> child.Valid() && child.Node() == Get(Node(), key)
    {
      var v := GetValue(key);
      if v.Scalar? {
        return null;
      }
      AtAppend(store.tree, path, Strings.Explode(".", key));
      child := new Config(store, path + Strings.Explode(".", key));
    }

    /** `set` */
    method Set(key: string, x: Value, o: Options) returns (outcome: Outcome)
      requires Valid()
      modifies store
      ensures Valid()
      ensures var below := Put(old(Node()), Strings.Explode(".", key), x, o);
        Node() == below.0 && outcome == below.1 && store.tree == Replace(old(store.tree), path, below.0)
    {
      var keys := Strings.Explode(".", key);
      var size := |keys| - 1;
      ghost var tree, node := store.tree, Node();
      ReplaceSame(tree, path);
      assert keys[..0] == [] && path + keys[..0] == path;
      for i := 0 to size
        invariant Valid() && store.tree == Replace(tree, path, Node())
        invariant At(Node(), keys[..i]).Some?
        invariant Put(Node(), keys, x, o) == Put(node, keys, x, o)
      {
        ghost var before := Node();
        outcome := Step(keys, i, x, o);
        ReplaceTwice(tree, path, before, Node());
        if !outcome.Stored? {
          return;
        }
      }
      ghost var before := Node();
      outcome := Last(keys, x, o);
      ReplaceTwice(tree, path, before, Node());
    }

    /** `getChildrenConfigs`: a node for each array below. */
    method GetChildrenConfigs() returns (children: map<string, Config>)
      requires Valid()
      ensures children.Keys == ArrayKeys(Node().entries)
      ensures forall k :: k in children ==>
        fresh(children[k]) && children[k].store == store && children[k].path == path + [k] &&
        children[k].Valid() && children[k].Node() == Node().entries[k]
    {
      children := map[];
      var todo := Node().entries.Keys;
      while todo != {}
        invariant todo <= Node().entries.Keys
        invariant children.Keys == ArrayKeys(Node().entries) - todo
        invariant forall k :: k in children ==>
          fresh(children[k]) && children[k].store == store && children[k].path == path + [k] &&
          children[k].Valid() && children[k].Node() == Node().entries[k]
      {
        var key :| key in todo;
        if Node().entries[key].Arr? {
          AtAppend(store.tree, path, [key]);
          var child := new Config(store, path + [key]);
          children := children[key := child];
        }
        todo := todo - {key};
      }
    }

    /** `merge`, recursive and distinct */
    method MergeDistinct(clear: set<string>, other: Config)
      requires Valid() && other.Valid()
      modifies store
      ensures Valid() && Node() == Arr(Merge(clear, old(Node()).entries, old(other.Node())))
      ensures store.tree == Replace(old(store.tree), path, Node())
    {
      var merged := ArrayMergeRecursiveDistinct(clear, Node().entries, other.Node());
      ReplaceTwice(store.tree, path, Arr(merged), Arr(merged));
      store.tree := Replace(store.tree, path, Arr(merged));
    }

    /** A step of the walk to the last key: the next node is there, or is created,
        or the walk ends. */
    method Step(keys: seq<string>, i: nat, x: Value, o: Options) returns (outcome: Outcome)
      requires Valid() && i < |keys| - 1 && At(Node(), keys[..i]).Some?
      modifies store
      ensures Valid() && store.tree == Replace(old(store.tree), path, Node())
      ensures outcome.Stored? ==>
        Put(Node(), keys, x, o) == Put(old(Node()), keys, x, o) && At(Node(), keys[..i + 1]).Some?
      ensures !outcome.Stored? ==> Node() == Put(old(Node()), keys, x, o).0 && outcome == Put(old(Node()), keys, x, o).1
    {
      var base := At(Node(), keys[..i]).value;
      ghost var rest := keys[i..];
      assert keys == keys[..i] + rest && keys[..i + 1] == keys[..i] + [keys[i]];
      ReplaceSame(store.tree, path);
      PutBelow(Node(), keys[..i], rest, x, o);
      ReplaceSame(Node(), keys[..i]);
      AtAppend(Node(), keys[..i], [keys[i]]);
      if base.Arr? && keys[i] in base.entries {
        return Stored;
      }
      if !o.force {
        return Refused;
      }
      if !BecomesArray(base) {
        Write(keys[..i], Overwritten(base, keys[i], EMPTY));
        return if IsString(base) then Threw else Blocked;
      }
      CreateFirst(Node(), keys[..i], rest, x, o);
      var created := Arr(Entries(base)[keys[i] := EMPTY]);
      Write(keys[..i], created);
      AtAppend(Node(), keys[..i], [keys[i]]);
      return Stored;
    }

    /** An assignment through the reference to a node below. */
    method Write(below: seq<string>, x: Value)
      requires Valid() && At(Node(), below).Some? && (x.Arr? || below != [])
      modifies store
      ensures Valid() && Node() == Replace(old(Node()), below, x) &&
        store.tree == Replace(old(store.tree), path, Node())
      ensures At(Node(), below) == Some(x)
    {
      AtAppend(store.tree, path, below);
      ReplaceAppend(store.tree, path, below, x);
      ReplaceTwice(store.tree, path, Replace(Node(), below, x), x);
      ReplaceTwice(Node(), below, x, x);
      store.tree := Replace(store.tree, path + below, x);
    }

    method Last(keys: seq<string>, x: Value, o: Options) returns (outcome: Outcome)
      requires Valid() && keys != [] && At(Node(), keys[..|keys| - 1]).Some?
      modifies store
      ensures Valid() && store.tree == Replace(old(store.tree), path, Node())
      ensures (Node(), outcome) == Put(old(Node()), keys, x, o)
    {
      var size := |keys| - 1;
      var base, key := At(Node(), keys[..size]).value, keys[size];
      assert keys == keys[..size] + [key];
      PutBelow(Node(), keys[..size], [key], x, o);
      ReplaceSame(Node(), keys[..size]);
      ReplaceSame(store.tree, path);
      if base.Arr? && key in base.entries && !o.overwrite {
        return Refused;
      }
      if !BecomesArray(base) {
        Write(keys[..size], Overwritten(base, key, x));
        return Blocked;
      }
      Write(keys[..size], Arr(Entries(base)[key := x]));
      return Stored;
    }
  }

  // ---- merging ------------------------------------------------------------------------

  /** `array_merge_recursive_distinct`: at a key of the import, two arrays are
      merged unless the key is one to clear, and the import's value wins otherwise. */
  function Merge(clear: set<string>, base: Tree, imported: Value): Tree
    requires imported.Arr?
    decreases imported, 0
  {
    map k | k in base.Keys + imported.entries.Keys ::
      if k in imported.entries then Merged(clear, if k in base then base[k] else NULL, k, imported.entries[k])
      else base[k]
  }

  function Merged(clear: set<string>, base: Value, key: string, imported: Value): Value
    decreases imported, 1
  {
    if imported.Scalar? then imported
    else if key in clear then Arr(Merge(clear, map[], imported))
    else if base.Arr? then Arr(Merge(clear, base.entries, imported))
    else imported
  }

  /** The recursive loop over the keys of the import. */
  method ArrayMergeRecursiveDistinct(clear: set<string>, base: Tree, imported: Value) returns (merged: Tree)
    requires imported.Arr?
    ensures merged == Merge(clear, base, imported)
    decreases imported
  {
    merged := base;
    var todo := imported.entries.Keys;
    while todo != {}
      invariant todo <= imported.entries.Keys
      invariant merged.Keys == base.Keys + (imported.entries.Keys - todo)
      invariant forall k :: k in merged && (k !in imported.entries || k in todo) ==> merged[k] == base[k]
      invariant forall k :: k in imported.entries && k !in todo ==>
        merged[k] == Merged(clear, if k in base then base[k] else NULL, k, imported.entries[k])
    {
      var key :| key in todo;
      var value := imported.entries[key];
      if key in clear {
        merged := merged[key := EMPTY];
      }
      if value.Arr? && key in merged && merged[key].Arr? {
        var below := ArrayMergeRecursiveDistinct(clear, merged[key].entries, value);
        merged := merged[key := Arr(below)];
      } else {
        merged := merged[key := value];
      }
      todo := todo - {key};
    }
    assert merged == Merge(clear, base, imported);
  }

  /** Merging into the empty tree gives the import. */
  lemma {:induction false} MergeIntoEmpty(clear: set<string>, imported: Value)
    requires imported.Arr?
    ensures Merge(clear, map[], imported) == imported.entries
    decreases imported
  {
    forall k | k in imported.entries ensures Merge(clear, map[], imported)[k] == imported.entries[k] {
      if k in clear && imported.entries[k].Arr? { MergeIntoEmpty(clear, imported.entries[k]); }
    }
  }

  /** Merging the same import again changes nothing. */
  lemma {:induction false} MergeTwice(clear: set<string>, base: Tree, imported: Value)
    requires imported.Arr?
    ensures Merge(clear, Merge(clear, base, imported), imported) == Merge(clear, base, imported)
    decreases imported
  {
    var once := Merge(clear, base, imported);
    forall k | k in imported.entries ensures Merge(clear, once, imported)[k] == once[k] {
      var value := imported.entries[k];
      assert once[k] == Merged(clear, if k in base then base[k] else NULL, k, value);
      if value.Arr? && k !in clear {
        if k in base && base[k].Arr? {
          MergeTwice(clear, base[k].entries, value);
        } else {
          MergeIntoItself(clear, value);
        }
      }
    }
    assert Merge(clear, once, imported).Keys == once.Keys;
  }

  lemma {:induction false} MergeIntoItself(clear: set<string>, imported: Value)
    requires imported.Arr?
    ensures Merge(clear, imported.entries, imported) == imported.entries
    decreases imported
  {
    forall k | k in imported.entries ensures Merge(clear, imported.entries, imported)[k] == imported.entries[k] {
      var value := imported.entries[k];
      if value.Arr? {
        if k in clear { MergeIntoEmpty(clear, value); } else { MergeIntoItself(clear, value); }
      }
    }
  }

  /** A key to clear is on the path. */
  predicate MeetsClear(clear: set<string>, path: seq<string>) {
    exists i :: 0 <= i < |path| && path[i] in clear
  }

  lemma MeetsLater(clear: set<string>, path: seq<string>)
    requires path != []
    ensures MeetsClear(clear, path) <==> path[0] in clear || MeetsClear(clear, path[1..])
  {
    if MeetsClear(clear, path) && path[0] !in clear {
      var i :| 0 <= i < |path| && path[i] in clear;
      assert path[1..][i - 1] == path[i];
    }
    if MeetsClear(clear, path[1..]) {
      var i :| 0 <= i < |path[1..]| && path[1..][i] in clear;
      assert path[i + 1] == path[1..][i];
    }
  }

  predicate IsArrayAt(t: Tree, path: seq<string>) {
    At(Arr(t), path).Some? && At(Arr(t), path).value.Arr?
  }

  /** What the merge holds at any path of the import: the import's value, unless
      both have an array there and no key on the way is to clear; then those
      arrays are merged. */
  lemma {:induction false} MergedAt(clear: set<string>, base: Tree, imported: Value, path: seq<string>)
    requires imported.Arr? && At(imported, path).Some?
    ensures var value := At(imported, path).value;
      At(Arr(Merge(clear, base, imported)), path) == Some(
        if value.Scalar? || MeetsClear(clear, path) || !IsArrayAt(base, path) then value
        else Arr(Merge(clear, At(Arr(base), path).value.entries, value)))
    decreases |path|
  {
    if path != [] {
      var k, rest := path[0], path[1..];
      var value := imported.entries[k];
      MeetsLater(clear, path);
      if value.Arr? {
        if k in clear {
          MergeIntoEmpty(clear, value);
        } else if k in base && base[k].Arr? {
          MergedAt(clear, base[k].entries, value, rest);
        }
      }
    }
  }

  lemma MergeNothing(clear: set<string>, base: Tree)
    ensures Merge(clear, base, EMPTY) == base
  {
  }

  /** A leaf of the import, a scalar or an empty array, wins at any depth exactly
      when it is a scalar, a key on the way is to clear, or the base has nothing
      in an array there. */
  lemma ImportWins(clear: set<string>, base: Tree, imported: Value, path: seq<string>)
    requires imported.Arr? && At(imported, path).Some?
    requires At(imported, path).value.Scalar? || At(imported, path).value == EMPTY
    ensures At(Arr(Merge(clear, base, imported)), path) == At(imported, path) <==>
      (At(imported, path).value.Scalar? || MeetsClear(clear, path) || !IsArrayAt(base, path) ||
        At(Arr(base), path).value == EMPTY)
  {
    MergedAt(clear, base, imported, path);
    if IsArrayAt(base, path) { MergeNothing(clear, At(Arr(base), path).value.entries); }
  }

  /** An empty array of the import that does not win. */
  lemma EmptyArrayLoses(x: Value)
    ensures var base, imported := map["k" := Arr(map["x" := x])], Arr(map["k" := EMPTY]);
      At(imported, ["k"]) == Some(EMPTY) && At(Arr(Merge({}, base, imported)), ["k"]) == Some(Arr(map["x" := x]))
  {
    var base, imported := map["k" := Arr(map["x" := x])], Arr(map["k" := EMPTY]);
    assert ["k"][1..] == [];
    assert At(imported, ["k"]) == Some(EMPTY);
    MergedAt({}, base, imported, ["k"]);
    MergeNothing({}, map["x" := x]);
  }

  /** The import has no key on the path where it leaves the import's arrays, and
      none on the way that is cleared. */
  predicate IsUntouched(clear: set<string>, imported: Value, path: seq<string>)
    decreases |path|
  {
    path != [] && imported.Arr? &&
    (path[0] !in imported.entries || (path[0] !in clear && IsUntouched(clear, imported.entries[path[0]], path[1..])))
  }

  lemma {:induction false} UntouchedIsKept(clear: set<string>, base: Tree, imported: Value, path: seq<string>)
    requires IsUntouched(clear, imported, path)
    ensures At(Arr(Merge(clear, base, imported)), path) == At(Arr(base), path)
    decreases |path|
  {
    var k := path[0];
    if k in imported.entries {
      var value := imported.entries[k];
      if k in base && base[k].Arr? {
        UntouchedIsKept(clear, base[k].entries, value, path[1..]);
      } else {
        NotInImport(clear, value, path[1..]);
      }
    }
  }

  lemma {:induction false} NotInImport(clear: set<string>, imported: Value, path: seq<string>)
    requires IsUntouched(clear, imported, path)
    ensures At(imported, path) == None
    decreases |path|
  {
    if path[0] in imported.entries { NotInImport(clear, imported.entries[path[0]], path[1..]); }
  }

  /** Where both have an array, at any depth, the merge has the keys of both, or
      only those of the import below a key to clear. */
  lemma ArraysKeepBothKeys(clear: set<string>, base: Tree, imported: Value, path: seq<string>)
    requires imported.Arr? && At(imported, path).Some? && At(imported, path).value.Arr? && IsArrayAt(base, path)
    ensures var merged := At(Arr(Merge(clear, base, imported)), path); var value := At(imported, path).value;
      merged.Some? && merged.value.Arr? &&
      merged.value.entries.Keys == value.entries.Keys + if MeetsClear(clear, path) then {}
        else At(Arr(base), path).value.entries.Keys
  {
    MergedAt(clear, base, imported, path);
  }
}
