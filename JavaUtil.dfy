/**
 * The parts of java.util the two tuple classes delegate to: `Arrays.equals`,
 * `Arrays.hashCode`, `Arrays.toString`, `Objects.hash`, and `equals`,
 * `hashCode` and `toString` of `AbstractMap`, which both `HashMap` and the
 * maps of `Map.of` inherit or match. Each is written as the JDK's loop,
 * as a recursive function, and proved equal to a loop-free reference.
 */
module JavaUtil {
  import opened JavaLang

  // ---------------------------------------------------------------------
  // Arrays.equals
  // ---------------------------------------------------------------------

  /** The loop of `Arrays.equals` from index `i` on: every pair agrees under `Objects.equals`. */
  function EqualFrom(a: seq<Value>, b: seq<Value>, i: nat): bool
    requires |a| == |b| && i <= |a|
    decreases |a| - i
  {
    i == |a| || (ObjectsEquals(a[i], b[i]) && EqualFrom(a, b, i + 1))
  }

  /** `Arrays.equals(a, b)` for two non-null arrays: same length, then element by element. */
  function ArraysEquals(a: seq<Value>, b: seq<Value>): bool
  {
    |a| == |b| && EqualFrom(a, b, 0)
  }

  lemma {:induction false} EqualFromIsSuffixEquality(a: seq<Value>, b: seq<Value>, i: nat)
    requires |a| == |b| && i <= |a|
    ensures EqualFrom(a, b, i) <==> a[i..] == b[i..]
    decreases |a| - i
  {
    if i < |a| {
      EqualFromIsSuffixEquality(a, b, i + 1);
      assert a[i..] == [a[i]] + a[i + 1..];
      assert b[i..] == [b[i]] + b[i + 1..];
    }
  }

  /** Two arrays are `Arrays.equals` exactly when they have the same length and the same elements in the same order. */
  lemma ArraysEqualsIsElementwise(a: seq<Value>, b: seq<Value>)
    ensures ArraysEquals(a, b) <==> |a| == |b| && forall i :: 0 <= i < |a| ==> a[i] == b[i]
    ensures ArraysEquals(a, b) <==> a == b
  {
    if |a| == |b| {
      EqualFromIsSuffixEquality(a, b, 0);
      assert a[0..] == a && b[0..] == b;
    }
  }

  // ---------------------------------------------------------------------
  // Arrays.hashCode and Objects.hash
  // ---------------------------------------------------------------------

  /** The `Objects.hashCode` of every element, in order. */
  function Hashes(a: seq<Value>): (hs: seq<Int32>)
    ensures |hs| == |a|
  {
    seq(|a|, i requires 0 <= i < |a| => HashCodeOf(a[i]))
  }

  /** `Arrays.hashCode` of an array whose elements have the hash codes `hs`: `h = 1; h = 31 * h + e`. */
  function HashOfHashes(hs: seq<Int32>): Int32
  {
    Fold31(1, hs)
  }

  /** `Arrays.hashCode(a)` for a non-null array. */
  function ArraysHashCode(a: seq<Value>): Int32
  {
    HashOfHashes(Hashes(a))
  }

  /**
   * `Arrays.hashCode` is `31^n + h(a[0])·31^(n-1) + ... + h(a[n-1])` in `int`
   * arithmetic: a positional combination of the element hashes.
   */
  lemma ArraysHashCodeFormula(a: seq<Value>)
    ensures ArraysHashCode(a) == Wrap32(Pow31(|a|) + Weighted(Hashes(a)))
  {
    Fold31ClosedForm(1, Hashes(a));
  }

  /** `Objects.hash(x)` with one argument is `Arrays.hashCode` of a one-element array: `31 + x.hashCode()`. */
  function ObjectsHash1(h: Int32): (r: Int32)
    ensures r == Wrap32(31 + h)
  {
    Fold31ClosedForm(1, [h]);
    assert Weighted([h]) == h;
    HashOfHashes([h])
  }

  // ---------------------------------------------------------------------
  // Arrays.toString
  // ---------------------------------------------------------------------

  /** The parts joined with `sep` between neighbours. */
  function Join(sep: string, parts: seq<string>): string
  {
    if |parts| == 0 then ""
    else if |parts| == 1 then parts[0]
    else parts[0] + sep + Join(sep, parts[1..])
  }

  /** `String.valueOf` of every element, in order. */
  function Rendered(a: seq<Value>): (r: seq<string>)
    ensures |r| == |a|
  {
    seq(|a|, i requires 0 <= i < |a| => ValueToString(a[i]))
  }

  /**
   * The loop of `Arrays.toString` from index `i` on, with the text built so far
   * in `sb`: append element `i`; close with `]` after the last, else append `", "`.
   */
  function AppendElements(a: seq<Value>, i: nat, sb: string): string
    requires i < |a|
    decreases |a| - i
  {
    var sb' := sb + ValueToString(a[i]);
    if i == |a| - 1 then sb' + "]" else AppendElements(a, i + 1, sb' + ", ")
  }

  /** `Arrays.toString(a)` for a non-null array. */
  function ArraysToString(a: seq<Value>): string
  {
    if |a| == 0 then "[]" else AppendElements(a, 0, "[")
  }

  lemma {:induction false} AppendElementsJoins(a: seq<Value>, i: nat, sb: string)
    requires i < |a|
    ensures AppendElements(a, i, sb) == sb + Join(", ", Rendered(a)[i..]) + "]"
    decreases |a| - i
  {
    var parts := Rendered(a)[i..];
    if i < |a| - 1 {
      AppendElementsJoins(a, i + 1, sb + ValueToString(a[i]) + ", ");
      assert parts[1..] == Rendered(a)[i + 1..];
    }
  }

  /** `Arrays.toString` is `"["`, the elements' `String.valueOf` joined by `", "`, then `"]"`. */
  lemma ArraysToStringFormat(a: seq<Value>)
    ensures ArraysToString(a) == "[" + Join(", ", Rendered(a)) + "]"
  {
    if |a| > 0 {
      AppendElementsJoins(a, 0, "[");
      assert Rendered(a)[0..] == Rendered(a);
    }
  }

  // ---------------------------------------------------------------------
  // AbstractMap.equals
  // ---------------------------------------------------------------------

  /** `Map.get(k)`: the mapped value, or `null` when `k` has no mapping. */
  function MapGet(m: map<string, Value>, k: string): (v: Value)
    ensures k in m ==> v == m[k]
    ensures k !in m ==> v == VNull
  {
    if k in m then m[k] else VNull
  }

  /**
   * The test `AbstractMap.equals` applies to one entry `(k, v)` of this map
   * against the other map `b`: a `null` value needs a mapping to `null`, any
   * other value must `equals` the other map's value.
   */
  predicate EntryMatches(k: string, v: Value, b: map<string, Value>)
  {
    if v == VNull then MapGet(b, k) == VNull && k in b else ObjectsEquals(v, MapGet(b, k))
  }

  /** `AbstractMap.equals` against another map: same size, then every entry of `a` matches in `b`. */
  predicate MapEquals(a: map<string, Value>, b: map<string, Value>)
  {
    |a| == |b| && forall k | k in a :: EntryMatches(k, a[k], b)
  }

  lemma SubsetOfSameSize(x: set<string>, y: set<string>)
    requires x <= y && |x| == |y|
    ensures x == y
  {
    assert y == x + (y - x) && x !! (y - x);
    assert |y - x| == 0;
  }

  /** `AbstractMap.equals` holds exactly when the two maps hold the same key/value pairs. */
  lemma MapEqualsIsExtensional(a: map<string, Value>, b: map<string, Value>)
    ensures MapEquals(a, b) <==> a == b
  {
    if MapEquals(a, b) {
      forall k | k in a
        ensures k in b && b[k] == a[k]
      {
        assert EntryMatches(k, a[k], b);
      }
      assert |a.Keys| == |a| && |b.Keys| == |b|;
      SubsetOfSameSize(a.Keys, b.Keys);
    }
  }

  // ---------------------------------------------------------------------
  // AbstractMap.hashCode and toString over an iteration order
  // ---------------------------------------------------------------------

  /**
   * `order` lists every key exactly once: the order in which a map's
   * `entrySet()` iterator visits its entries. Java does not fix it.
   */
  predicate IsEnumeration(order: seq<string>, keys: set<string>)
  {
    multiset(order) == multiset(keys)
  }

  /** `Map.Entry.hashCode`: `Objects.hashCode(key) ^ Objects.hashCode(value)`. */
  function EntryHashCode(k: string, v: Value): Int32
  {
    Xor32(StringHashCode(k), HashCodeOf(v))
  }

  function EntryHashAt(m: map<string, Value>, k: string): Int32
  {
    EntryHashCode(k, MapGet(m, k))
  }

  /** The loop of `AbstractMap.hashCode` over the keys in `order`: `h = 0; h += e.hashCode()` in `int` arithmetic. */
  function MapHashCode(m: map<string, Value>, order: seq<string>): Int32
  {
    if |order| == 0 then 0
    else Wrap32(MapHashCode(m, order[..|order| - 1]) + EntryHashAt(m, order[|order| - 1]))
  }

  /** The same sum in unbounded arithmetic. */
  function EntrySum(m: map<string, Value>, order: seq<string>): int
  {
    if |order| == 0 then 0 else EntrySum(m, order[..|order| - 1]) + EntryHashAt(m, order[|order| - 1])
  }

  lemma {:induction false} MapHashCodeIsWrappedSum(m: map<string, Value>, order: seq<string>)
    ensures MapHashCode(m, order) == Wrap32(EntrySum(m, order))
  {
    if |order| > 0 {
      var pre := order[..|order| - 1];
      MapHashCodeIsWrappedSum(m, pre);
      WrapAdd(EntrySum(m, pre), EntryHashAt(m, order[|order| - 1]));
    }
  }

  lemma {:induction false} EntrySumConcat(m: map<string, Value>, s: seq<string>, t: seq<string>)
    ensures EntrySum(m, s + t) == EntrySum(m, s) + EntrySum(m, t)
    decreases |t|
  {
    if |t| == 0 {
      assert s + t == s;
    } else {
      var st := s + t;
      assert st[..|st| - 1] == s + t[..|t| - 1];
      EntrySumConcat(m, s, t[..|t| - 1]);
    }
  }

  /**
   * Takes the last key of `s` out of `t`, which lists the same keys: `t` is
   * `l + [x] + r` and `l + r` lists the same keys as `s` without its last.
   */
  lemma PickOut(s: seq<string>, t: seq<string>) returns (l: seq<string>, j: nat, r: seq<string>)
    requires |s| > 0 && multiset(s) == multiset(t)
    ensures s == s[..|s| - 1] + [s[|s| - 1]]
    ensures t == l + [s[|s| - 1]] + r
    ensures multiset(s[..|s| - 1]) == multiset(l + r)
  {
    var x := s[|s| - 1];
    assert s == s[..|s| - 1] + [x];
    assert x in multiset(t);
    j :| 0 <= j < |t| && t[j] == x;
    l, r := t[..j], t[j + 1..];
    assert t == l + [x] + r;
    assert multiset(t) == multiset(l) + multiset{x} + multiset(r);
    assert multiset(s) == multiset(s[..|s| - 1]) + multiset{x};
    assert multiset(l + r) == multiset(l) + multiset(r);
    assert multiset(s[..|s| - 1]) == multiset(s) - multiset{x};
    assert multiset(l) + multiset(r) == multiset(t) - multiset{x};
  }

  /** The sum of entry hashes does not depend on the order in which the entries are visited. */
  lemma {:induction false} EntrySumPermutation(m: map<string, Value>, s: seq<string>, t: seq<string>)
    requires multiset(s) == multiset(t)
    ensures EntrySum(m, s) == EntrySum(m, t)
    decreases |s|
  {
    if |s| == 0 {
      assert |multiset(t)| == 0;
    } else {
      var pre, x := s[..|s| - 1], s[|s| - 1];
      var l, j, r := PickOut(s, t);
      EntrySumPermutation(m, pre, l + r);
      EntrySumConcat(m, pre, [x]);
      EntrySumConcat(m, l + [x], r);
      EntrySumConcat(m, l, [x]);
      EntrySumConcat(m, l, r);
    }
  }

  /**
   * `AbstractMap.hashCode` is the same for every iteration order of the same
   * key/value pairs, so it depends on the pair set alone.
   */
  lemma MapHashCodeOrderIndependent(m: map<string, Value>, o1: seq<string>, o2: seq<string>)
    requires IsEnumeration(o1, m.Keys) && IsEnumeration(o2, m.Keys)
    ensures MapHashCode(m, o1) == MapHashCode(m, o2)
  {
    MapHashCodeIsWrappedSum(m, o1);
    MapHashCodeIsWrappedSum(m, o2);
    EntrySumPermutation(m, o1, o2);
  }

  /** The text `AbstractMap.toString` gives one entry: `key=value`. */
  function EntryString(m: map<string, Value>, k: string): string
  {
    k + "=" + ValueToString(MapGet(m, k))
  }

  /** `key=value` for every key in `order`, in that order. */
  function EntryStrings(m: map<string, Value>, order: seq<string>): (r: seq<string>)
    ensures |r| == |order|
  {
    seq(|order|, i requires 0 <= i < |order| => EntryString(m, order[i]))
  }

  /** The loop of `AbstractMap.toString` from position `i` of `order` on, with the text built so far in `sb`. */
  function AppendEntries(m: map<string, Value>, order: seq<string>, i: nat, sb: string): string
    requires i < |order|
    decreases |order| - i
  {
    var sb' := sb + EntryString(m, order[i]);
    if i == |order| - 1 then sb' + "}" else AppendEntries(m, order, i + 1, sb' + ", ")
  }

  /** `AbstractMap.toString` when the entries are visited in `order`. */
  function MapToString(m: map<string, Value>, order: seq<string>): string
  {
    if |order| == 0 then "{}" else AppendEntries(m, order, 0, "{")
  }

  lemma {:induction false} AppendEntriesJoins(m: map<string, Value>, order: seq<string>, i: nat, sb: string)
    requires i < |order|
    ensures AppendEntries(m, order, i, sb) == sb + Join(", ", EntryStrings(m, order)[i..]) + "}"
    decreases |order| - i
  {
    var parts := EntryStrings(m, order)[i..];
    if i < |order| - 1 {
      AppendEntriesJoins(m, order, i + 1, sb + EntryString(m, order[i]) + ", ");
      assert parts[1..] == EntryStrings(m, order)[i + 1..];
    }
  }

  /** `AbstractMap.toString` is `"{"`, the `key=value` texts joined by `", "`, then `"}"`. */
  lemma MapToStringFormat(m: map<string, Value>, order: seq<string>)
    ensures MapToString(m, order) == "{" + Join(", ", EntryStrings(m, order)) + "}"
  {
    if |order| > 0 {
      AppendEntriesJoins(m, order, 0, "{");
      assert EntryStrings(m, order)[0..] == EntryStrings(m, order);
    }
  }

  lemma EntryStringsConcat(m: map<string, Value>, s: seq<string>, t: seq<string>)
    ensures EntryStrings(m, s + t) == EntryStrings(m, s) + EntryStrings(m, t)
  {
  }

  /** Two iteration orders of the same map render the same entries, each as often, only in another order. */
  lemma {:induction false} EntryStringsPermutation(m: map<string, Value>, s: seq<string>, t: seq<string>)
    requires multiset(s) == multiset(t)
    ensures multiset(EntryStrings(m, s)) == multiset(EntryStrings(m, t))
    decreases |s|
  {
    if |s| == 0 {
      assert |multiset(t)| == 0;
    } else {
      var pre, x := s[..|s| - 1], s[|s| - 1];
      var l, j, r := PickOut(s, t);
      EntryStringsPermutation(m, pre, l + r);
      EntryStringsConcat(m, pre, [x]);
      EntryStringsConcat(m, l + [x], r);
      EntryStringsConcat(m, l, [x]);
      EntryStringsConcat(m, l, r);
    }
  }
}
