# ax-tuple in Dafny

A model of the two immutable value types of the `com.appxiom.ax.tuple`
library, written as Dafny datatypes, functions and lemmas:

- `Tuple` (module `Tuples`, file `Tuple.dfy`): an ordered, fixed-length
  sequence of elements of any type. Elements are read by index with bounds
  checking, optionally through a checked cast. Equality, hash code and text
  come from `java.util.Arrays`.
- `NamedTuple` (module `NamedTuples`, file `NamedTuple.dfy`): a fixed map from
  names to elements of any type. A missing name reads as `null`. Equality,
  hash code and text come from the backing `Map`.

Both classes only delegate to the JDK, so the JDK behaviour they rely on is
written out as well:

- Module `JavaLang` (`JavaLang.dfy`) holds 32-bit `int` wrap-around, `^` on
  `int`, `String.hashCode`, `Integer.toString`, `Objects.equals`,
  `Objects.hashCode`, `String.valueOf` and `Class.cast`.
- Module `JavaUtil` (`JavaUtil.dfy`) holds `Arrays.equals`, `Arrays.hashCode`,
  `Arrays.toString`, `Objects.hash`, and the `equals`, `hashCode` and
  `toString` of `AbstractMap`.

Most JDK loops are recursive functions that follow the loop step by step:
those of `Arrays.equals`, `Arrays.hashCode`, `Arrays.toString`,
`String.hashCode`, `AbstractMap.hashCode` and `AbstractMap.toString`. Each is
proved equal to a loop-free reference: element-wise equality,
`31^n + Σ h_i·31^(n-1-i)` modulo 2^32, a `", "`-joined list, or a sum of
entry hashes that does not depend on the order of the entries. There are two
exceptions. The entry loop of `AbstractMap.equals` is stated directly as a
`forall` over the keys (`MapEquals`). `Integer.toString` is modelled as a
digit-at-a-time recursion (`NatToString`), not as the JDK's loop that emits
two digits per step from the low end; its partner is a round trip through
the decimal parser `ParseDigits`.

Elements are the closed type
`Value = VNull | VStr(string) | VInt(Int32)`, for Java's `null`, `String`
and `Integer`. A `Class<T>` type marker is a `TypeTag` (`Object`, `String`,
`Integer`). The `Object o` argument of `equals` is an `ObjectRef<T>`:
`null`, an instance of the same class, or an instance of another class.

Both types are Dafny datatype values and every accessor is a function. So
no accessor can change a tuple's size, elements, names or values. That is
the immutability the Java classes promise through their `final` fields.

The model follows the Java code in three places where a reader might expect
otherwise:

- The untyped `get` performs no check. Its `(T)` cast is erased, so it
  returns exactly what `getObject` returns. A wrong `T` fails only at the
  caller's assignment. `InferredGetThenCast` states that the typed `get` is
  the untyped one followed by that caller-side cast.
- A missing name gives `null` (`VNull`). A name mapped to `null` gives the
  same result; Java does not tell the two apart either.
- Construction copies nothing in Java. The model takes a snapshot of the
  array or map. That matches Java only while callers leave the array or
  map alone after construction.

## Model

| member | source | states |
|---|---|---|
| `Tuples.Of` | src/main/java/com/appxiom/ax/tuple/Tuple.java:28-39 | `of(xs)` has as many elements as `xs`, including none, and `getObject(i)` returns `xs[i]` at every valid index |
| `Tuples.Size` | src/main/java/com/appxiom/ax/tuple/Tuple.java:90-92 | the length of the backing array: the valid indices are exactly `0` to `size() - 1` |
| `Tuples.GetObject` | src/main/java/com/appxiom/ax/tuple/Tuple.java:48-50 | succeeds exactly for `0 <= index < size` and then returns that element; every other index throws `ArrayIndexOutOfBoundsException` |
| `Tuples.Get` | src/main/java/com/appxiom/ax/tuple/Tuple.java:63-66 | the inferred-type `get` returns exactly what `getObject` returns, errors included |
| `Tuples.GetTyped` | src/main/java/com/appxiom/ax/tuple/Tuple.java:80-83 | an out-of-range index throws `ArrayIndexOutOfBoundsException` first; otherwise a `null` element or an instance of the requested class is returned unchanged, and any other element throws `ClassCastException` |
| `Tuples.InferredGetThenCast` | src/main/java/com/appxiom/ax/tuple/Tuple.java:63-83 | the typed `get` is the inferred `get` followed by the checked cast, and has the same index errors |
| `Tuples.ToString` | src/main/java/com/appxiom/ax/tuple/Tuple.java:100-103 | the text is `"["`, the elements' `String.valueOf` joined by `", "`, then `"]"` |
| `Tuples.Equals` | src/main/java/com/appxiom/ax/tuple/Tuple.java:114-122 | `equals(o)` holds exactly when `o` is a tuple with the same elements; it is false for `null` and for objects of other classes |
| `Tuples.EqualsIsPositional` | src/main/java/com/appxiom/ax/tuple/Tuple.java:114-122 | two tuples are equal iff they have the same size and `getObject` agrees at every index |
| `Tuples.EqualsIsEquivalence` | src/main/java/com/appxiom/ax/tuple/Tuple.java:114-122 | `equals` is reflexive, symmetric and transitive, and never holds for `null` or another class |
| `Tuples.EqualsImpliesSameHashCode` | src/main/java/com/appxiom/ax/tuple/Tuple.java:129-132 | equal tuples have equal hash codes |
| `Tuples.HashCode` | src/main/java/com/appxiom/ax/tuple/Tuple.java:129-132 | `Arrays.hashCode(elements)`: the hash code is `31^n + Σ hash(e_i)·31^(n-1-i)` wrapped to 32 bits |
| `Tuples.OutOfRangeThrows` | src/main/java/com/appxiom/ax/tuple/Tuple.java:46-83 | every index below 0 or at least `size` makes all three accessors throw `ArrayIndexOutOfBoundsException`; no index is clamped |
| `Tuples.OneElementBounds` | src/test/java/com/appxiom/ax/tuple/test/TupleTest.java:77-81 | on `of("one")`, indices 1 and -1 throw `ArrayIndexOutOfBoundsException` |
| `Tuples.ToStringExamples` | src/test/java/com/appxiom/ax/tuple/test/TupleTest.java:87-90 | `of("one", 2)` prints as `[one, 2]`, and the empty tuple prints as `[]` |
| `Tuples.EqualsAndHashCodeExamples` | src/test/java/com/appxiom/ax/tuple/test/TupleTest.java:97-111 | `of("a", "b")` built twice is equal with equal hash codes; it is unequal to `of("a", "c")`, `of("a", "b", "c")`, `null` and a `String`; and `of("a", "c")` hashes differently |
| `Tuples.TypedGetExamples` | src/test/java/com/appxiom/ax/tuple/test/TupleTest.java:65-70 | reading `"string"` as `Integer` throws `ClassCastException`; reading it as `String`, or `123` as `Integer`, succeeds |
| `NamedTuples.Of` | src/main/java/com/appxiom/ax/tuple/NamedTuple.java:30-41 | `of(m)` has as many elements as `m` has names, and `getObject(k)` gives `m[k]` for a present name and `null` otherwise |
| `NamedTuples.Size` | src/main/java/com/appxiom/ax/tuple/NamedTuple.java:91-93 | the number of name/value pairs, which is the length of every iteration order of the map |
| `NamedTuples.GetObject` | src/main/java/com/appxiom/ax/tuple/NamedTuple.java:50-52 | a present name gives its value, and a missing name gives `null` without an error |
| `NamedTuples.Get` | src/main/java/com/appxiom/ax/tuple/NamedTuple.java:66-69 | the inferred-type `get` returns exactly what `getObject` returns |
| `NamedTuples.GetTyped` | src/main/java/com/appxiom/ax/tuple/NamedTuple.java:82-84 | there are three outcomes: a missing name gives `null`; a present value that is `null` or of the requested class is returned; a present value of another class throws `ClassCastException` |
| `NamedTuples.InferredGetThenCast` | src/main/java/com/appxiom/ax/tuple/NamedTuple.java:66-84 | the typed `get` is the inferred `get` followed by the checked cast |
| `NamedTuples.ToString` | src/main/java/com/appxiom/ax/tuple/NamedTuple.java:101-104 | in the map's iteration order, the text is `"{"`, the `key=value` entries joined by `", "`, then `"}"` |
| `NamedTuples.ToStringListsEveryPairOnce` | src/main/java/com/appxiom/ax/tuple/NamedTuple.java:101-104 | there is one entry per pair; the i-th entry is `key=value` for the i-th key in iteration order; each key appears once; two iteration orders list the same entries, only rearranged |
| `NamedTuples.Equals` | src/main/java/com/appxiom/ax/tuple/NamedTuple.java:114-122 | `equals(o)` holds exactly when `o` is a named tuple with the same name/value pairs; it is false for `null` and for other classes |
| `NamedTuples.EqualsIsByPairs` | src/main/java/com/appxiom/ax/tuple/NamedTuple.java:114-122 | two named tuples are equal iff they have the same names and `getObject` agrees on every name |
| `NamedTuples.EqualsIsEquivalence` | src/main/java/com/appxiom/ax/tuple/NamedTuple.java:114-122 | `equals` is reflexive, symmetric and transitive, and never holds for `null` or another class |
| `NamedTuples.HashCodeIndependentOfOrder` | src/main/java/com/appxiom/ax/tuple/NamedTuple.java:129-132 | the hash code is the same for every iteration order of the backing map |
| `NamedTuples.EqualsImpliesSameHashCode` | src/main/java/com/appxiom/ax/tuple/NamedTuple.java:129-132 | equal named tuples have equal hash codes, whatever order each map iterates in |
| `NamedTuples.HashCode` | src/main/java/com/appxiom/ax/tuple/NamedTuple.java:129-132 | `Objects.hash(map)` over the iteration order `order`: the hash code is `31 + Σ (hash(k) ^ hash(v))` over the pairs, wrapped to 32 bits |
| `NamedTuples.ToStringOfOnePair` | src/test/java/com/appxiom/ax/tuple/test/NamedTupleTest.java:76-79 | a one-pair named tuple prints as `{key=value}` |
| `NamedTuples.MissingKeyIsNull` | src/main/java/com/appxiom/ax/tuple/NamedTuple.java:43-84 | a missing name gives `null` from `getObject`, `get` and the typed `get`, and never an error |
| `NamedTuples.AccessorExamples` | src/test/java/com/appxiom/ax/tuple/test/NamedTupleTest.java:36-69 | on `{name=John, age=30}`: `name` read as `Integer` throws; `name` as `String` and `age` as `Integer` succeed; a missing name is `null` |
| `NamedTuples.HashCodeOfOnePair` | src/main/java/com/appxiom/ax/tuple/NamedTuple.java:129-132 | a one-pair named tuple has a single iteration order and hashes as `31 + (hash(key) ^ hash(value))` wrapped to 32 bits |
| `NamedTuples.EqualsAndHashCodeExamples` | src/test/java/com/appxiom/ax/tuple/test/NamedTupleTest.java:86-98 | `{k1=v1}` built twice is equal with equal hash codes; it is unequal to `{k1=v2}`, to `null` and to another class; and `{k1=v2}` hashes differently |
| `JavaLang.Wrap32` | src/main/java/com/appxiom/ax/tuple/Tuple.java:129-132 | narrowing to `int` gives the unique 32-bit value congruent to its input modulo 2^32, and leaves in-range values unchanged |
| `JavaLang.Fold31ClosedForm` | src/main/java/com/appxiom/ax/tuple/Tuple.java:129-132 | the `h = 31*h + x` loop of `Arrays.hashCode` and `String.hashCode` equals `seed·31^n + Σ x_i·31^(n-1-i)` wrapped once to 32 bits |
| `JavaLang.StringHashCodeFormula` | src/main/java/com/appxiom/ax/tuple/NamedTuple.java:129-132 | `String.hashCode` is `Σ s[i]·31^(n-1-i)` wrapped to 32 bits |
| `JavaLang.XorBits` | src/main/java/com/appxiom/ax/tuple/NamedTuple.java:129-132 | the xor of the low `n` bits fits in `n` bits |
| `JavaLang.Xor32Examples` | src/main/java/com/appxiom/ax/tuple/NamedTuple.java:129-132 | the `int` xor that combines key and value hashes gives `5 ^ 3 == 6`, `-1 ^ 1 == -2`, and `3366 ^ 3707 == 861` and `3366 ^ 3708 == 858` for the hashes of `"k1"`, `"v1"` and `"v2"` |
| `JavaLang.StringHashCodeExamples` | src/main/java/com/appxiom/ax/tuple/NamedTuple.java:129-132 | `String.hashCode` gives 3366 for `"k1"`, 3707 for `"v1"` and 3708 for `"v2"` |
| `JavaLang.Cast` | src/main/java/com/appxiom/ax/tuple/Tuple.java:80-83 | `Class.cast` passes `null` and instances of the class unchanged, and throws `ClassCastException` for any other value |
| `JavaLang.ObjectsEquals` | src/main/java/com/appxiom/ax/tuple/Tuple.java:121 | `Objects.equals` on elements holds exactly for equal values |
| `JavaLang.IntToStringRoundTrip` | src/main/java/com/appxiom/ax/tuple/Tuple.java:100-103 | the decimal text `Integer.toString` gives for an element is well formed and parses back to the same number; it starts with `-` exactly for negative values, and its digits have no leading zero, `"0"` being the text of zero alone |
| `JavaUtil.ArraysEqualsIsElementwise` | src/main/java/com/appxiom/ax/tuple/Tuple.java:121 | `Arrays.equals` holds iff the arrays have the same length and equal elements at every index |
| `JavaUtil.ArraysHashCodeFormula` | src/main/java/com/appxiom/ax/tuple/Tuple.java:131 | `Arrays.hashCode` is `31^n + Σ hash(a_i)·31^(n-1-i)` wrapped to 32 bits |
| `JavaUtil.ObjectsHash1` | src/main/java/com/appxiom/ax/tuple/NamedTuple.java:131 | `Objects.hash(x)` is `31 + x.hashCode()` wrapped to 32 bits |
| `JavaUtil.ArraysToStringFormat` | src/main/java/com/appxiom/ax/tuple/Tuple.java:102 | `Arrays.toString` is `"["`, the elements' text joined by `", "`, then `"]"` |
| `JavaUtil.MapGet` | src/main/java/com/appxiom/ax/tuple/NamedTuple.java:51 | `Map.get` gives the mapped value for a present key and `null` for a missing one |
| `JavaUtil.MapEqualsIsExtensional` | src/main/java/com/appxiom/ax/tuple/NamedTuple.java:121 | `AbstractMap.equals` holds iff the two maps hold the same key/value pairs |
| `JavaUtil.MapHashCodeOrderIndependent` | src/main/java/com/appxiom/ax/tuple/NamedTuple.java:131 | `AbstractMap.hashCode` gives the same result for every iteration order of the same map |
| `JavaUtil.EntrySumPermutation` | src/main/java/com/appxiom/ax/tuple/NamedTuple.java:131 | the unbounded sum of entry hashes is the same for any two orders that list the same keys equally often |
| `JavaUtil.MapHashCodeIsWrappedSum` | src/main/java/com/appxiom/ax/tuple/NamedTuple.java:131 | the `h += e.hashCode()` loop equals the unbounded sum of entry hashes wrapped once to 32 bits |
| `JavaUtil.MapToStringFormat` | src/main/java/com/appxiom/ax/tuple/NamedTuple.java:103 | `AbstractMap.toString` is `"{"`, the `key=value` texts joined by `", "`, then `"}"` |
| `JavaUtil.EntryStringsPermutation` | src/main/java/com/appxiom/ax/tuple/NamedTuple.java:103 | two iteration orders of the same map render the same multiset of `key=value` entries |
| `JavaUtil.ArraysEquals` | src/main/java/com/appxiom/ax/tuple/Tuple.java:121 | `Arrays.equals` as the JDK loop: same length, then `Objects.equals` at each index; `ArraysEqualsIsElementwise` proves it is element-wise equality |
| `JavaUtil.ArraysHashCode` | src/main/java/com/appxiom/ax/tuple/Tuple.java:131 | `Arrays.hashCode` as the JDK loop `h = 1; h = 31*h + hash(e)`; `ArraysHashCodeFormula` gives its closed form |
| `JavaUtil.ArraysToString` | src/main/java/com/appxiom/ax/tuple/Tuple.java:102 | `Arrays.toString` as the JDK loop, `"[]"` when empty; `ArraysToStringFormat` proves it is the `", "`-joined form |
| `JavaUtil.MapEquals` | src/main/java/com/appxiom/ax/tuple/NamedTuple.java:121 | `AbstractMap.equals` against another map: same size, then each entry matches, a `null` value only a present key mapped to `null`; `MapEqualsIsExtensional` proves it is map equality |
| `JavaUtil.MapHashCode` | src/main/java/com/appxiom/ax/tuple/NamedTuple.java:131 | `AbstractMap.hashCode` as the loop `h += e.hashCode()` over the iteration order; `MapHashCodeIsWrappedSum` and `MapHashCodeOrderIndependent` relate it to the unbounded sum and to other orders |
| `JavaUtil.MapToString` | src/main/java/com/appxiom/ax/tuple/NamedTuple.java:103 | `AbstractMap.toString` as the JDK loop over the iteration order, `"{}"` when empty; `MapToStringFormat` proves it is the joined form |
| `JavaUtil.EntryHashCode` | src/main/java/com/appxiom/ax/tuple/NamedTuple.java:131 | `Map.Entry.hashCode`: the key hash xor the value hash |
| `JavaLang.Xor32` | src/main/java/com/appxiom/ax/tuple/NamedTuple.java:131 | `^` on `int`, as the xor of the two's-complement bit patterns; `Xor32Examples` gives sample results |
| `JavaLang.StringHashCode` | src/main/java/com/appxiom/ax/tuple/NamedTuple.java:131 | `String.hashCode` as the loop `h = 31*h + c` from 0; `StringHashCodeFormula` gives its closed form |
| `JavaLang.HashCodeOf` | src/main/java/com/appxiom/ax/tuple/Tuple.java:131 | `Objects.hashCode`: 0 for `null`, otherwise the value's own hash code |
| `JavaLang.ValueToString` | src/main/java/com/appxiom/ax/tuple/Tuple.java:102 | `String.valueOf`: `"null"`, the string itself, or `Integer.toString` of the number |

## Left out

- The demo programs under `src/main/java/com/appxiom/ax/tuple/demo/` only use the public API. They print timings and formatted doubles to the console.
- `HashMap` internals (buckets, `computeIfAbsent`) and the map-usage tests are JDK behaviour. The model keeps only what those tests rely on: equal keys have equal hash codes.
- `Double` elements and their hash and text are floating point. Elements are restricted to `null`, `String` and `Integer`.
- Java reflection is reduced to three type markers: `Object.class`, `String.class` and `Integer.class`. Generic type parameters are not modelled.
- Reference identity is not modelled. The `this == o` short cut in `equals` gives the same answer as reflexivity.
- Aliasing is not modelled: the array or map passed to `of` is stored without a copy. A caller that mutates it later changes the tuple in Java but not in the model.
- A `null` backing array (`Tuple.of((Object[]) null)`) is not modelled. With it, `size`, `getObject` and both `get`s throw `NullPointerException`; `toString` returns `"null"`, `hashCode` returns 0, and two such tuples are equal.
- A `null` backing map (`NamedTuple.of(null)`) is not modelled. With it, `size`, `getObject`, both `get`s and `toString` throw `NullPointerException`; `hashCode` returns 31, and two such named tuples are equal.
- A `null` type marker is not modelled. In Java, `type.cast` then throws `NullPointerException` (`Tuple.java:82`, `NamedTuple.java:83`), even for a missing name.
- A `null` name is not modelled. With the immutable `Map.of` maps the tests use, `get(null)` throws `NullPointerException`.
- Null keys in a `NamedTuple`'s map are not modelled: names are Dafny strings.
- The map's iteration order is implementation-defined, so `toString` and `hashCode` of `NamedTuple` take the order as a parameter `order`. The lemmas hold for every order that lists each key once.
- `AbstractMap.equals` catches `ClassCastException` and `NullPointerException`. That path is not modelled, because the modelled maps and values cannot raise either.
- `AbstractMap.toString` prints `(this Map)` for a map that contains itself. That case is not modelled, because values cannot be maps here.
- The hash inequalities the tests assert (`TupleTest.java:110`, `NamedTupleTest.java:97`) hold only for those inputs. They are stated for those inputs alone, not as general properties.
- Dafny characters are Unicode scalar values, while Java strings hash and print UTF-16 code units. For characters outside the Basic Multilingual Plane, `String.hashCode` is not modelled.
- The 2^31-1 bound on Java array length is not imposed on tuples. Indices are unbounded integers, and all of them outside `[0, size)` throw.
