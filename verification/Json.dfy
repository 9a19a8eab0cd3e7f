/**
 JSON values, the removal of forbidden keys at every depth, and the search for such keys.
 Objects keep the order of their keys, as Python dictionaries do.
 */
module Json {
  import opened Wrappers
  import opened Sequences

  datatype Value = Null | Boolean(b: bool) | Num(n: int) | Str(s: string) | Arr(items: seq<Value>)
    | Obj(fields: seq<Field>)

  datatype Field = Field(key: string, value: Value)

  function Get(fields: seq<Field>, key: string): Option<Value> {
    if fields == [] then None
    else if fields[0].key == key then Some(fields[0].value)
    else Get(fields[1..], key)
  }

  /** `value.get(key)` where the value may not be an object at all. */
  function GetIn(v: Value, key: string): Option<Value> {
    if v.Obj? then Get(v.fields, key) else None
  }

  /** Assigns a key of a dictionary: an existing key keeps its place. */
  function Put(fields: seq<Field>, key: string, value: Value): seq<Field> {
    if fields == [] then [Field(key, value)]
    else if fields[0].key == key then [Field(key, value)] + fields[1..]
    else [fields[0]] + Put(fields[1..], key, value)
  }

  function Keys(fields: seq<Field>): seq<string> {
    Map((f: Field) => f.key, fields)
  }

  /** Every object has each of its keys once, as a dictionary does. */
  ghost predicate WellFormed(v: Value) {
    match v
    case Arr(items) => forall i :: 0 <= i < |items| ==> WellFormed(items[i])
    case Obj(fields) => Distinct(Keys(fields)) && forall i :: 0 <= i < |fields| ==> WellFormed(fields[i].value)
    case _ => true
  }

  // ---- removal

  function Strip(forbidden: set<string>, v: Value): Value
    decreases v, 1
  {
    match v
    case Arr(items) => Arr(StripItems(forbidden, items))
    case Obj(fields) => Obj(StripFields(forbidden, fields))
    case _ => v
  }

  function StripItems(forbidden: set<string>, items: seq<Value>): (r: seq<Value>)
    ensures |r| == |items|
    decreases items, 0
  {
    if items == [] then [] else [Strip(forbidden, items[0])] + StripItems(forbidden, items[1..])
  }

  function StripFields(forbidden: set<string>, fields: seq<Field>): seq<Field>
    decreases fields, 0
  {
    if fields == [] then []
    else
      var rest := StripFields(forbidden, fields[1..]);
      if fields[0].key in forbidden then rest
      else [Field(fields[0].key, Strip(forbidden, fields[0].value))] + rest
  }

  /** Some object, at any depth, has one of the keys. */
  predicate HasKey(keys: set<string>, v: Value)
    decreases v, 1
  {
    match v
    case Arr(items) => AnyItemHasKey(keys, items)
    case Obj(fields) => AnyFieldHasKey(keys, fields)
    case _ => false
  }

  predicate AnyItemHasKey(keys: set<string>, items: seq<Value>)
    decreases items, 0
  {
    items != [] && (HasKey(keys, items[0]) || AnyItemHasKey(keys, items[1..]))
  }

  predicate AnyFieldHasKey(keys: set<string>, fields: seq<Field>)
    decreases fields, 0
  {
    fields != [] && (fields[0].key in keys || HasKey(keys, fields[0].value) || AnyFieldHasKey(keys, fields[1..]))
  }

  /** Stripping leaves no forbidden key, and changes exactly the values that had one. */
  lemma {:induction false} StripRemoves(forbidden: set<string>, v: Value)
    ensures !HasKey(forbidden, Strip(forbidden, v))
    ensures Strip(forbidden, v) == v <==> !HasKey(forbidden, v)
    decreases v, 1
  {
    match v
    case Arr(items) => StripItemsRemoves(forbidden, items);
    case Obj(fields) => StripFieldsRemoves(forbidden, fields);
    case _ =>
  }

  lemma {:induction false} StripItemsRemoves(forbidden: set<string>, items: seq<Value>)
    ensures !AnyItemHasKey(forbidden, StripItems(forbidden, items))
    ensures StripItems(forbidden, items) == items <==> !AnyItemHasKey(forbidden, items)
    decreases items, 0
  {
    if items != [] {
      StripRemoves(forbidden, items[0]);
      StripItemsRemoves(forbidden, items[1..]);
      assert items == [items[0]] + items[1..];
      var r := StripItems(forbidden, items);
      assert r[0] == Strip(forbidden, items[0]) && r[1..] == StripItems(forbidden, items[1..]);
    }
  }

  lemma {:induction false} StripFieldsRemoves(forbidden: set<string>, fields: seq<Field>)
    ensures !AnyFieldHasKey(forbidden, StripFields(forbidden, fields))
    ensures |StripFields(forbidden, fields)| <= |fields|
    ensures StripFields(forbidden, fields) == fields <==> !AnyFieldHasKey(forbidden, fields)
    decreases fields, 0
  {
    if fields != [] {
      StripRemoves(forbidden, fields[0].value);
      StripFieldsRemoves(forbidden, fields[1..]);
      assert fields == [fields[0]] + fields[1..];
      var r := StripFields(forbidden, fields);
      if fields[0].key !in forbidden {
        assert r[0] == Field(fields[0].key, Strip(forbidden, fields[0].value));
        assert r[1..] == StripFields(forbidden, fields[1..]);
      }
    }
  }

  lemma StripIsIdempotent(forbidden: set<string>, v: Value)
    ensures Strip(forbidden, Strip(forbidden, v)) == Strip(forbidden, v)
  {
    StripRemoves(forbidden, v);
    StripRemoves(forbidden, Strip(forbidden, v));
  }

  /** The keys that stay keep their order. */
  lemma {:induction false} StripKeepsOrder(forbidden: set<string>, fields: seq<Field>)
    ensures Keys(StripFields(forbidden, fields)) == Filter((k: string) => k !in forbidden, Keys(fields))
  {
    if fields != [] {
      StripKeepsOrder(forbidden, fields[1..]);
      assert Keys(fields)[1..] == Keys(fields[1..]);
    }
  }

  lemma {:induction false} GetStripped(forbidden: set<string>, fields: seq<Field>, key: string)
    ensures Get(StripFields(forbidden, fields), key) ==
      if key in forbidden then None
      else if Get(fields, key).Some? then Some(Strip(forbidden, Get(fields, key).value)) else None
  {
    if fields != [] {
      GetStripped(forbidden, fields[1..], key);
    }
  }

  lemma {:induction false} StripItemAt(forbidden: set<string>, items: seq<Value>, i: nat)
    requires i < |items|
    ensures StripItems(forbidden, items)[i] == Strip(forbidden, items[i])
  {
    if i > 0 {
      StripItemAt(forbidden, items[1..], i - 1);
    }
  }

  // ---- paths

  datatype Step = At(index: nat) | Key(key: string)

  function Follow(v: Value, step: Step): Option<Value> {
    match step
    case At(i) => if v.Arr? && i < |v.items| then Some(v.items[i]) else None
    case Key(k) => GetIn(v, k)
  }

  function Lookup(v: Value, path: seq<Step>): Option<Value>
    decreases path
  {
    if path == [] then Some(v)
    else
      var next := Follow(v, path[0]);
      if next.Some? then Lookup(next.value, path[1..]) else None
  }

  predicate Avoids(path: seq<Step>, keys: set<string>) {
    forall step <- path :: !(step.Key? && step.key in keys)
  }

  /**
   Stripping, stated without its recursion: along a path that avoids the forbidden keys one finds what was there
   before, stripped; along any other path one finds nothing.
   */
  lemma {:induction false} LookupStripped(forbidden: set<string>, v: Value, path: seq<Step>)
    ensures Lookup(Strip(forbidden, v), path) ==
      if Avoids(path, forbidden) && Lookup(v, path).Some? then Some(Strip(forbidden, Lookup(v, path).value)) else None
    decreases path
  {
    if path != [] {
      assert path == [path[0]] + path[1..];
      assert Avoids(path, forbidden) <==> Avoids([path[0]], forbidden) && Avoids(path[1..], forbidden);
      FollowStripped(forbidden, v, path[0]);
      var next := Follow(v, path[0]);
      if next.Some? {
        LookupStripped(forbidden, next.value, path[1..]);
      }
    }
  }

  lemma FollowStripped(forbidden: set<string>, v: Value, step: Step)
    ensures Follow(Strip(forbidden, v), step) ==
      if Avoids([step], forbidden) && Follow(v, step).Some? then Some(Strip(forbidden, Follow(v, step).value)) else None
  {
    match step
    case At(i) =>
      assert !step.Key?;
      if v.Arr? && i < |v.items| {
        StripItemAt(forbidden, v.items, i);
      }
    case Key(k) =>
      assert step in [step];
      if v.Obj? {
        GetStripped(forbidden, v.fields, k);
      }
  }

  ghost predicate KeyAt(keys: set<string>, v: Value, path: seq<Step>, key: string) {
    key in keys && Lookup(v, path).Some? && GetIn(Lookup(v, path).value, key).Some?
  }

  /** In a well-formed value a key occurs exactly when some path leads to an object with it. */
  lemma {:induction false} HasKeyHasPath(keys: set<string>, v: Value)
    requires WellFormed(v) && HasKey(keys, v)
    ensures exists path, key :: KeyAt(keys, v, path, key)
  {
    match v
    case Arr(items) =>
      var i := FirstItemWithKey(keys, items);
      HasKeyHasPath(keys, items[i]);
      var path, key :| KeyAt(keys, items[i], path, key);
      assert ([At(i)] + path)[1..] == path;
      assert KeyAt(keys, v, [At(i)] + path, key);
    case Obj(fields) =>
      var i := FirstFieldWithKey(keys, fields);
      GetAt(fields, i);
      if fields[i].key in keys {
        assert KeyAt(keys, v, [], fields[i].key);
      } else {
        HasKeyHasPath(keys, fields[i].value);
        var path, key :| KeyAt(keys, fields[i].value, path, key);
        assert ([Key(fields[i].key)] + path)[1..] == path;
        assert KeyAt(keys, v, [Key(fields[i].key)] + path, key);
      }
    case _ =>
  }

  lemma FirstItemWithKey(keys: set<string>, items: seq<Value>) returns (i: nat)
    requires AnyItemHasKey(keys, items)
    ensures i < |items| && HasKey(keys, items[i])
  {
    if HasKey(keys, items[0]) {
      i := 0;
    } else {
      i := FirstItemWithKey(keys, items[1..]);
      i := i + 1;
    }
  }

  lemma FirstFieldWithKey(keys: set<string>, fields: seq<Field>) returns (i: nat)
    requires AnyFieldHasKey(keys, fields)
    ensures i < |fields| && (fields[i].key in keys || HasKey(keys, fields[i].value))
  {
    if fields[0].key in keys || HasKey(keys, fields[0].value) {
      i := 0;
    } else {
      i := FirstFieldWithKey(keys, fields[1..]);
      i := i + 1;
    }
  }

  lemma {:induction false} GetAt(fields: seq<Field>, i: nat)
    requires Distinct(Keys(fields)) && i < |fields|
    ensures Get(fields, fields[i].key) == Some(fields[i].value)
  {
    if i > 0 {
      assert Keys(fields)[0] != Keys(fields)[i];
      assert Keys(fields)[1..] == Keys(fields[1..]);
      GetAt(fields[1..], i - 1);
    }
  }

  lemma {:induction false} PathHasKey(keys: set<string>, v: Value, path: seq<Step>, key: string)
    requires KeyAt(keys, v, path, key)
    ensures HasKey(keys, v)
    decreases path
  {
    if path == [] {
      GetHasKey(keys, v.fields, key);
    } else {
      var next := Follow(v, path[0]).value;
      PathHasKey(keys, next, path[1..], key);
      match path[0]
      case At(i) => ItemHasKey(keys, v.items, i);
      case Key(k) => GetHasKey(keys, v.fields, k);
    }
  }

  lemma {:induction false} ItemHasKey(keys: set<string>, items: seq<Value>, i: nat)
    requires i < |items| && HasKey(keys, items[i])
    ensures AnyItemHasKey(keys, items)
  {
    if i > 0 {
      ItemHasKey(keys, items[1..], i - 1);
    }
  }

  lemma {:induction false} GetHasKey(keys: set<string>, fields: seq<Field>, key: string)
    requires Get(fields, key).Some? && (key in keys || HasKey(keys, Get(fields, key).value))
    ensures AnyFieldHasKey(keys, fields)
  {
    if fields[0].key != key {
      GetHasKey(keys, fields[1..], key);
    }
  }

  lemma {:induction false} StripKeepsWellFormed(forbidden: set<string>, v: Value)
    requires WellFormed(v)
    ensures WellFormed(Strip(forbidden, v))
    decreases v, 1
  {
    match v
    case Arr(items) =>
      forall i | 0 <= i < |items|
        ensures WellFormed(StripItems(forbidden, items)[i])
      {
        StripItemAt(forbidden, items, i);
        StripKeepsWellFormed(forbidden, items[i]);
      }
    case Obj(fields) => StripFieldsKeepsWellFormed(forbidden, fields);
    case _ =>
  }

  lemma {:induction false} StripFieldsKeepsWellFormed(forbidden: set<string>, fields: seq<Field>)
    requires Distinct(Keys(fields)) && forall i :: 0 <= i < |fields| ==> WellFormed(fields[i].value)
    ensures var r := StripFields(forbidden, fields);
            && Distinct(Keys(r)) && (forall i :: 0 <= i < |r| ==> WellFormed(r[i].value))
            && forall f <- r :: f.key in Keys(fields)
    decreases fields, 0
  {
    if fields != [] {
      var head, tail := fields[0], fields[1..];
      assert Keys(tail) == Keys(fields)[1..];
      StripFieldsKeepsWellFormed(forbidden, tail);
      StripKeepsWellFormed(forbidden, head.value);
      var rest := StripFields(forbidden, tail);
      if head.key !in forbidden {
        assert Keys(fields)[0] == head.key && head.key !in Keys(tail);
        PrependKeepsDistinct(Field(head.key, Strip(forbidden, head.value)), rest, Keys(tail));
      }
      assert forall k <- Keys(tail) :: k in Keys(fields);
      assert head.key in Keys(fields);
    }
  }

  lemma PrependKeepsDistinct(head: Field, rest: seq<Field>, keys: seq<string>)
    requires Distinct(Keys(rest)) && head.key !in keys && forall f <- rest :: f.key in keys
    ensures Distinct(Keys([head] + rest))
  {
    var all := [head] + rest;
    forall i, j | 0 <= i < j < |all|
      ensures all[i].key != all[j].key
    {
      assert rest[j - 1] in rest;
      if i > 0 {
        assert Keys(rest)[i - 1] != Keys(rest)[j - 1];
      }
    }
  }

  /**
   After stripping, some of `keys` are still found exactly when in the original value a path that avoids the
   forbidden keys leads to an object with one of them that is not itself forbidden.
   */
  lemma SurvivesStripping(forbidden: set<string>, keys: set<string>, v: Value)
    requires WellFormed(v)
    ensures HasKey(keys, Strip(forbidden, v))
       <==> exists path, key :: Avoids(path, forbidden) && KeyAt(keys - forbidden, v, path, key)
  {
    var stripped := Strip(forbidden, v);
    StripKeepsWellFormed(forbidden, v);
    forall path, key
      ensures KeyAt(keys, stripped, path, key) <==> Avoids(path, forbidden) && KeyAt(keys - forbidden, v, path, key)
    {
      LookupStripped(forbidden, v, path);
      if Avoids(path, forbidden) && Lookup(v, path).Some? && Lookup(v, path).value.Obj? {
        GetStripped(forbidden, Lookup(v, path).value.fields, key);
      }
    }
    if HasKey(keys, stripped) {
      HasKeyHasPath(keys, stripped);
      var path, key :| KeyAt(keys, stripped, path, key);
      assert Avoids(path, forbidden) && KeyAt(keys - forbidden, v, path, key);
    }
    if path, key :| Avoids(path, forbidden) && KeyAt(keys - forbidden, v, path, key) {
      assert KeyAt(keys, stripped, path, key);
      PathHasKey(keys, stripped, path, key);
    }
  }
}
