/**
 * `NamedTuple`: an immutable mapping from names to elements of any type,
 * compared, hashed and printed the way its backing `Map<String, Object>` is.
 * Lookup of a missing name gives `null`, never an error.
 */
module NamedTuples {
  import opened JavaLang
  import opened JavaUtil

  /** The tuple's `Map<String, Object> map`, taken as a snapshot when the tuple is built. */
  datatype NamedTuple = NamedTuple(entries: map<string, Value>)

  /** `NamedTuple.of(map)`: wraps the given name/value pairs. */
  function Of(m: map<string, Value>): (t: NamedTuple)
    ensures Size(t) == |m|
    ensures forall k :: GetObject(t, k) == (if k in m then m[k] else VNull)
  {
    NamedTuple(m)
  }

  /** `size()`: the number of name/value pairs, which is the length of every iteration of the map. */
  function Size(t: NamedTuple): (n: nat)
    ensures n == |t.entries.Keys|
    ensures forall order | IsEnumeration(order, t.entries.Keys) :: |order| == n
  {
    EnumerationLength(t.entries.Keys);
    |t.entries|
  }

  lemma EnumerationLength(keys: set<string>)
    ensures forall order | IsEnumeration(order, keys) :: |order| == |keys|
  {
    forall order | IsEnumeration(order, keys)
      ensures |order| == |keys|
    {
      assert |multiset(order)| == |multiset(keys)|;
    }
  }

  /** `getObject(key)`: `map.get(key)`, which is `null` for a missing key and never throws. */
  function GetObject(t: NamedTuple, key: string): (v: Value)
    ensures key in t.entries ==> v == t.entries[key]
    ensures key !in t.entries ==> v == VNull
  {
    MapGet(t.entries, key)
  }

  /**
   * `get(key)` with the inferred type: the unchecked cast `(T)` is erased, so
   * the method returns what `map.get` returns, `null` for a missing key.
   */
  function Get(t: NamedTuple, key: string): (v: Value)
    ensures v == GetObject(t, key)
  {
    if key in t.entries then t.entries[key] else VNull
  }

  /**
   * `get(key, type)`: `type.cast(map.get(key))` (`cls` here). A missing key
   * reads as `null`, which every cast lets through.
   */
  function GetTyped(t: NamedTuple, key: string, cls: TypeTag): (r: Result<Value>)
    ensures key !in t.entries ==> r == Ok(VNull)
    ensures key in t.entries && (t.entries[key] == VNull || IsInstance(t.entries[key], cls)) ==>
      r == Ok(t.entries[key])
    ensures key in t.entries && t.entries[key] != VNull && !IsInstance(t.entries[key], cls) ==>
      r == Throws(ClassCastException)
  {
    Cast(MapGet(t.entries, key), cls)
  }

  /** The typed read is the inferred read followed by the checked cast the caller's assignment performs. */
  lemma InferredGetThenCast(t: NamedTuple, key: string, cls: TypeTag)
    ensures GetTyped(t, key, cls) == Cast(Get(t, key), cls)
  {
  }

  /** `toString()`: `map.toString()`, listing the entries in the map's iteration order `order`. */
  function ToString(t: NamedTuple, order: seq<string>): (s: string)
    requires IsEnumeration(order, t.entries.Keys)
    ensures s == "{" + Join(", ", EntryStrings(t.entries, order)) + "}"
  {
    MapToStringFormat(t.entries, order);
    MapToString(t.entries, order)
  }

  /**
   * `equals(o)`: `false` for `null` and for any object of another class,
   * otherwise `Objects.equals` of the two backing maps, that is
   * `AbstractMap.equals`. The `this == o` short cut agrees by reflexivity.
   */
  function Equals(t: NamedTuple, o: ObjectRef<NamedTuple>): (r: bool)
    ensures r <==> o == SameClass(t)
  {
    match o
    case NullRef => false
    case OtherClass => false
    case SameClass(u) =>
      MapEqualsIsExtensional(t.entries, u.entries);
      MapEquals(t.entries, u.entries)
  }

  /**
   * `hashCode()`: `Objects.hash(map)`, that is `31 + map.hashCode()`, where
   * `AbstractMap.hashCode` adds up the entry hashes in iteration order `order`:
   * `31 + Σ (hash(k) ^ hash(v))` over the pairs, in `int` arithmetic.
   */
  function HashCode(t: NamedTuple, order: seq<string>): (h: Int32)
    requires IsEnumeration(order, t.entries.Keys)
    ensures h == Wrap32(31 + EntrySum(t.entries, order))
  {
    MapHashCodeIsWrappedSum(t.entries, order);
    WrapAdd(EntrySum(t.entries, order), 31);
    ObjectsHash1(MapHashCode(t.entries, order))
  }

  /** Two named tuples are equal exactly when they hold the same names, each with the same value. */
  lemma EqualsIsByPairs(t: NamedTuple, u: NamedTuple)
    ensures Equals(t, SameClass(u)) <==>
      t.entries.Keys == u.entries.Keys && forall k :: GetObject(t, k) == GetObject(u, k)
  {
    if t.entries.Keys == u.entries.Keys && forall k :: GetObject(t, k) == GetObject(u, k) {
      forall k | k in t.entries
        ensures t.entries[k] == u.entries[k]
      {
        assert GetObject(t, k) == GetObject(u, k);
      }
      assert t.entries == u.entries;
    }
  }

  /** `equals` is an equivalence relation on named tuples, and never holds for `null` or another class. */
  lemma EqualsIsEquivalence(t: NamedTuple, u: NamedTuple, w: NamedTuple)
    ensures Equals(t, SameClass(t))
    ensures Equals(t, SameClass(u)) <==> Equals(u, SameClass(t))
    ensures Equals(t, SameClass(u)) && Equals(u, SameClass(w)) ==> Equals(t, SameClass(w))
    ensures !Equals(t, NullRef) && !Equals(t, OtherClass)
  {
  }

  /** The hash code does not depend on the order in which the backing map iterates its entries. */
  lemma HashCodeIndependentOfOrder(t: NamedTuple, o1: seq<string>, o2: seq<string>)
    requires IsEnumeration(o1, t.entries.Keys) && IsEnumeration(o2, t.entries.Keys)
    ensures HashCode(t, o1) == HashCode(t, o2)
  {
    MapHashCodeOrderIndependent(t.entries, o1, o2);
  }

  /**
   * Equal named tuples have equal hash codes, whatever order their maps were
   * filled in and iterate in, so they can stand in for each other as keys of a `HashMap`.
   */
  lemma EqualsImpliesSameHashCode(t: NamedTuple, u: NamedTuple, o1: seq<string>, o2: seq<string>)
    requires IsEnumeration(o1, t.entries.Keys) && IsEnumeration(o2, u.entries.Keys)
    ensures Equals(t, SameClass(u)) ==> HashCode(t, o1) == HashCode(u, o2)
  {
    if Equals(t, SameClass(u)) {
      HashCodeIndependentOfOrder(t, o1, o2);
    }
  }

  /**
   * `toString` lists every pair exactly once as `key=value`: the `i`-th entry
   * is the `i`-th key of the iteration order, and two iteration orders list
   * the same entries, only rearranged.
   */
  lemma ToStringListsEveryPairOnce(t: NamedTuple, o1: seq<string>, o2: seq<string>)
    requires IsEnumeration(o1, t.entries.Keys) && IsEnumeration(o2, t.entries.Keys)
    ensures |EntryStrings(t.entries, o1)| == Size(t)
    ensures forall i :: 0 <= i < |o1| ==>
      o1[i] in t.entries && EntryStrings(t.entries, o1)[i] == o1[i] + "=" + ValueToString(t.entries[o1[i]])
    ensures forall k :: k in t.entries ==> multiset(o1)[k] == 1
    ensures multiset(EntryStrings(t.entries, o1)) == multiset(EntryStrings(t.entries, o2))
  {
    assert |multiset(o1)| == |multiset(t.entries.Keys)|;
    assert |t.entries.Keys| == |t.entries|;
    forall i | 0 <= i < |o1|
      ensures o1[i] in t.entries
    {
      assert o1[i] in multiset(o1);
    }
    EntryStringsPermutation(t.entries, o1, o2);
  }

  /** A one-pair tuple prints as `{key=value}`, in the only order it has. */
  lemma ToStringOfOnePair(key: string, v: Value, order: seq<string>)
    requires IsEnumeration(order, {key})
    ensures ToString(Of(map[key := v]), order) == "{" + key + "=" + ValueToString(v) + "}"
  {
    assert |order| == |multiset(order)| == 1;
    assert order[0] in multiset(order);
  }

  /** A missing name reads as `null` through every accessor, never as an error. */
  lemma MissingKeyIsNull(t: NamedTuple, key: string, cls: TypeTag)
    requires key !in t.entries
    ensures GetObject(t, key) == VNull && Get(t, key) == VNull
    ensures GetTyped(t, key, cls) == Ok(VNull)
  {
  }

  /** `{name=John, age=30}`: reading `name` as `Integer` throws, as `String` succeeds, and a missing name is `null`. */
  lemma AccessorExamples()
    ensures GetTyped(Of(map["name" := VStr("John"), "age" := VInt(30)]), "name", IntegerClass) == Throws(ClassCastException)
    ensures GetTyped(Of(map["name" := VStr("John"), "age" := VInt(30)]), "name", StringClass) == Ok(VStr("John"))
    ensures GetTyped(Of(map["name" := VStr("John"), "age" := VInt(30)]), "age", IntegerClass) == Ok(VInt(30))
    ensures GetObject(Of(map["name" := VStr("John"), "age" := VInt(30)]), "nonexistent") == VNull
  {
  }

  /** A one-pair tuple hashes as `31 + (hash(key) ^ hash(value))`, in the only order it has. */
  lemma HashCodeOfOnePair(key: string, v: Value, order: seq<string>)
    requires IsEnumeration(order, {key})
    ensures order == [key]
    ensures HashCode(Of(map[key := v]), order) == Wrap32(31 + EntryHashCode(key, v))
  {
    assert |order| == |multiset(order)| == 1;
    assert order[0] in multiset(order);
    var m := map[key := v];
    assert order[..0] == [];
    assert MapHashCode(m, order) == Wrap32(0 + EntryHashAt(m, key)) == EntryHashCode(key, v);
  }

  /**
   * `{k1=v1}` built twice gives equal named tuples with equal hash codes, while
   * `{k1=v2}`, `null` and an object of another class are unequal to it, and
   * `{k1=v2}` hashes differently (892 against 889).
   */
  lemma EqualsAndHashCodeExamples(o1: seq<string>, o2: seq<string>)
    requires IsEnumeration(o1, {"k1"}) && IsEnumeration(o2, {"k1"})
    ensures
      var nt1 := Of(map["k1" := VStr("v1")]);
      var nt2 := Of(map["k1" := VStr("v1")]);
      var nt3 := Of(map["k1" := VStr("v2")]);
      && Equals(nt1, SameClass(nt2))
      && !Equals(nt1, SameClass(nt3))
      && !Equals(nt1, NullRef)
      && !Equals(nt1, OtherClass)
      && HashCode(nt1, o1) == HashCode(nt2, o2)
      && HashCode(nt1, o1) != HashCode(nt3, o2)
  {
    HashCodeOfOnePair("k1", VStr("v1"), o1);
    HashCodeOfOnePair("k1", VStr("v1"), o2);
    HashCodeOfOnePair("k1", VStr("v2"), o2);
    StringHashCodeExamples();
    Xor32Examples();
    assert Of(map["k1" := VStr("v1")]) != Of(map["k1" := VStr("v2")]) by {
      assert map["k1" := VStr("v1")]["k1"] != map["k1" := VStr("v2")]["k1"];
    }
  }
}
