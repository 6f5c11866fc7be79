/**
 * `Tuple`: an immutable, ordered, fixed-length sequence of elements of any
 * type, compared, hashed and printed the way `java.util.Arrays` treats its
 * backing `Object[]`.
 */
module Tuples {
  import opened JavaLang
  import opened JavaUtil

  /** The tuple's `Object[] elements`, taken as a snapshot when the tuple is built. */
  datatype Tuple = Tuple(elements: seq<Value>)

  /** `Tuple.of(values...)`: zero or more values, kept in the order given. */
  function Of(values: seq<Value>): (t: Tuple)
    ensures Size(t) == |values|
    ensures forall i: int | 0 <= i < |values| :: GetObject(t, i) == Ok(values[i])
  {
    Tuple(values)
  }

  /** `size()`: the length of the backing array, so the valid indices are exactly `0` to `size() - 1`. */
  function Size(t: Tuple): (n: nat)
    ensures forall i: int :: 0 <= i < n <==> GetObject(t, i).Ok?
  {
    |t.elements|
  }

  /** `getObject(index)`: the element at `index`, or `ArrayIndexOutOfBoundsException`. */
  function GetObject(t: Tuple, index: int): (r: Result<Value>)
    ensures r.Ok? <==> 0 <= index < |t.elements|
    ensures r.Ok? ==> r.value == t.elements[index]
    ensures r.Throws? ==> r.error == ArrayIndexOutOfBoundsException
  {
    if 0 <= index < |t.elements| then Ok(t.elements[index]) else Throws(ArrayIndexOutOfBoundsException)
  }

  /**
   * `get(index)` with the inferred type: the unchecked cast `(T)` is erased,
   * so the method reads the array like `getObject`. A wrong `T` only surfaces
   * in the caller, when it assigns the result (see `InferredGetThenCast`).
   */
  function Get(t: Tuple, index: int): (r: Result<Value>)
    ensures r == GetObject(t, index)
  {
    if index < 0 || index >= |t.elements| then Throws(ArrayIndexOutOfBoundsException) else Ok(t.elements[index])
  }

  /**
   * `get(index, type)`: reads the element, then `type.cast`s it (`cls` here). The bounds
   * check comes first; `null` passes every cast.
   */
  function GetTyped(t: Tuple, index: int, cls: TypeTag): (r: Result<Value>)
    ensures !(0 <= index < Size(t)) ==> r == Throws(ArrayIndexOutOfBoundsException)
    ensures 0 <= index < Size(t) ==>
      var v := t.elements[index];
      if v == VNull || IsInstance(v, cls) then r == Ok(v) else r == Throws(ClassCastException)
  {
    match GetObject(t, index)
    case Throws(e) => Throws(e)
    case Ok(v) => Cast(v, cls)
  }

  /** The typed read is the inferred read followed by the checked cast the caller's assignment performs. */
  lemma InferredGetThenCast(t: Tuple, index: int, cls: TypeTag)
    ensures Get(t, index).Ok? ==> GetTyped(t, index, cls) == Cast(Get(t, index).value, cls)
    ensures Get(t, index).Throws? ==> GetTyped(t, index, cls) == Get(t, index)
  {
  }

  /** `toString()`: `Arrays.toString(elements)`. */
  function ToString(t: Tuple): (s: string)
    ensures s == "[" + Join(", ", Rendered(t.elements)) + "]"
  {
    ArraysToStringFormat(t.elements);
    ArraysToString(t.elements)
  }

  /**
   * `equals(o)`: `false` for `null` and for any object that is not a `Tuple`,
   * otherwise `Arrays.equals` of the two backing arrays. The `this == o`
   * short cut agrees with the result by reflexivity.
   */
  function Equals(t: Tuple, o: ObjectRef<Tuple>): (r: bool)
    ensures r <==> o == SameClass(t)
  {
    match o
    case NullRef => false
    case OtherClass => false
    case SameClass(u) =>
      ArraysEqualsIsElementwise(t.elements, u.elements);
      ArraysEquals(t.elements, u.elements)
  }

  /**
   * `hashCode()`: `Arrays.hashCode(elements)`, which weights each element's
   * hash by its position: `31^n + Σ h(e_i)·31^(n-1-i)` in `int` arithmetic.
   */
  function HashCode(t: Tuple): (h: Int32)
    ensures h == Wrap32(Pow31(Size(t)) + Weighted(Hashes(t.elements)))
  {
    ArraysHashCodeFormula(t.elements);
    ArraysHashCode(t.elements)
  }

  /** Two tuples are equal exactly when they have the same size and the same elements at every position. */
  lemma EqualsIsPositional(t: Tuple, u: Tuple)
    ensures Equals(t, SameClass(u)) <==>
      Size(t) == Size(u) && forall i: int | 0 <= i < Size(t) :: GetObject(t, i) == GetObject(u, i)
  {
    if Size(t) == Size(u) && forall i: int | 0 <= i < Size(t) :: GetObject(t, i) == GetObject(u, i) {
      forall i | 0 <= i < Size(t)
        ensures t.elements[i] == u.elements[i]
      {
        assert GetObject(t, i) == GetObject(u, i);
      }
      assert t.elements == u.elements;
    }
  }

  /** `equals` is an equivalence relation on tuples, and never holds for `null` or another class. */
  lemma EqualsIsEquivalence(t: Tuple, u: Tuple, w: Tuple)
    ensures Equals(t, SameClass(t))
    ensures Equals(t, SameClass(u)) <==> Equals(u, SameClass(t))
    ensures Equals(t, SameClass(u)) && Equals(u, SameClass(w)) ==> Equals(t, SameClass(w))
    ensures !Equals(t, NullRef) && !Equals(t, OtherClass)
  {
  }

  /** Equal tuples have equal hash codes, so they can stand in for each other as keys of a `HashMap`. */
  lemma EqualsImpliesSameHashCode(t: Tuple, u: Tuple)
    ensures Equals(t, SameClass(u)) ==> HashCode(t) == HashCode(u)
  {
  }

  /** An index outside `[0, size)` throws and is never clamped: `-1` and `size` both fail. */
  lemma OutOfRangeThrows(t: Tuple, index: int, cls: TypeTag)
    requires index < 0 || index >= Size(t)
    ensures GetObject(t, index) == Throws(ArrayIndexOutOfBoundsException)
    ensures Get(t, index) == Throws(ArrayIndexOutOfBoundsException)
    ensures GetTyped(t, index, cls) == Throws(ArrayIndexOutOfBoundsException)
  {
  }

  /** `Tuple.of("one")` rejects index 1 and index -1. */
  lemma OneElementBounds()
    ensures GetObject(Of([VStr("one")]), 1) == Throws(ArrayIndexOutOfBoundsException)
    ensures GetObject(Of([VStr("one")]), -1) == Throws(ArrayIndexOutOfBoundsException)
  {
  }

  /** `Tuple.of("one", 2)` prints as `[one, 2]`, and the empty tuple as `[]`. */
  lemma ToStringExamples()
    ensures ToString(Of([VStr("one"), VInt(2)])) == "[one, 2]"
    ensures ToString(Of([])) == "[]"
  {
    assert Rendered([VStr("one"), VInt(2)]) == ["one", "2"];
    assert Rendered([]) == [];
  }

  /** A string element read back as `Integer` throws `ClassCastException`; read as `String` it succeeds. */
  lemma TypedGetExamples()
    ensures GetTyped(Of([VStr("string"), VInt(123)]), 0, IntegerClass) == Throws(ClassCastException)
    ensures GetTyped(Of([VStr("string"), VInt(123)]), 0, StringClass) == Ok(VStr("string"))
    ensures GetTyped(Of([VStr("string"), VInt(123)]), 1, IntegerClass) == Ok(VInt(123))
  {
  }
  /**
   * `of("a", "b")` built twice gives equal tuples with equal hash codes, while
   * `of("a", "c")`, `of("a", "b", "c")`, `null` and a `String` are unequal to
   * it, and `of("a", "c")` hashes differently (4066 against 4067).
   */
  lemma EqualsAndHashCodeExamples()
    ensures
      var t1 := Of([VStr("a"), VStr("b")]);
      var t2 := Of([VStr("a"), VStr("b")]);
      var t3 := Of([VStr("a"), VStr("c")]);
      var t4 := Of([VStr("a"), VStr("b"), VStr("c")]);
      && Equals(t1, SameClass(t2))
      && !Equals(t1, SameClass(t3))
      && !Equals(t1, SameClass(t4))
      && !Equals(t1, NullRef)
      && !Equals(t1, OtherClass)
      && HashCode(t1) == HashCode(t2)
      && HashCode(t1) != HashCode(t3)
  {
    var ab := [VStr("a"), VStr("b")];
    var ac := [VStr("a"), VStr("c")];
    assert ab[1] != ac[1];
    assert StringHashCode("a") == 97 && StringHashCode("b") == 98 && StringHashCode("c") == 99 by {
      assert Codes("a") == [97] && Codes("b") == [98] && Codes("c") == [99];
    }
    assert Hashes(ab) == [97, 98] && Hashes(ac) == [97, 99];
    assert [97, 98][..1] == [97, 99][..1] == [97] && [97][..0] == [];
    assert HashCode(Of(ab)) == 4066;
    assert HashCode(Of(ac)) == 4067;
  }
}
