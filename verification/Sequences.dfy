/** Counting and filtering over sequences, shared by the models. */
module Sequences {

  datatype Option<+T> = None | Some(value: T)

  function B(b: bool): nat { if b then 1 else 0 }

  lemma Assoc<T>(a: seq<T>, b: seq<T>, c: seq<T>)
    ensures a + b + c == a + (b + c)
  {
  }

  /** The number of elements of `s` that satisfy `p`. */
  ghost function Count<T>(s: seq<T>, p: T -> bool): nat {
    if s == [] then 0 else B(p(s[0])) + Count(s[1..], p)
  }

  lemma {:induction false} CountConcat<T>(a: seq<T>, b: seq<T>, p: T -> bool)
    ensures Count(a + b, p) == Count(a, p) + Count(b, p)
  {
    if a == [] {
      assert a + b == b;
    } else {
      CountConcat(a[1..], b, p);
      assert (a + b)[1..] == a[1..] + b;
    }
  }

  lemma CountSnoc<T>(s: seq<T>, x: T, p: T -> bool)
    ensures Count(s + [x], p) == Count(s, p) + B(p(x))
  {
    CountConcat(s, [x], p);
  }

  lemma CountRemove<T>(s: seq<T>, i: nat, p: T -> bool)
    requires i < |s|
    ensures Count(s[..i] + s[i + 1..], p) == Count(s, p) - B(p(s[i]))
  {
    CountConcat(s[..i], s[i + 1..], p);
    CountConcat(s[..i], s[i..], p);
    assert s == s[..i] + s[i..];
    assert s[i..][1..] == s[i + 1..];
  }

  lemma CountUpdate<T>(s: seq<T>, i: nat, x: T, p: T -> bool)
    requires i < |s|
    ensures Count(s[i := x], p) == Count(s, p) - B(p(s[i])) + B(p(x))
  {
    CountRemove(s, i, p);
    CountRemove(s[i := x], i, p);
    assert s[i := x][..i] + s[i := x][i + 1..] == s[..i] + s[i + 1..];
  }

  /** An element that satisfies `p` is counted. */
  lemma CountOne<T>(s: seq<T>, i: nat, p: T -> bool)
    requires i < |s| && p(s[i])
    ensures Count(s, p) >= 1
  {
    CountRemove(s, i, p);
  }

  /** Two positions that satisfy `p` are both counted. */
  lemma CountTwo<T>(s: seq<T>, i: nat, j: nat, p: T -> bool)
    requires i < j < |s| && p(s[i]) && p(s[j])
    ensures Count(s, p) >= 2
  {
    CountRemove(s, j, p);
    CountOne(s[..j] + s[j + 1..], i, p);
  }

  /** A positive count has a witness. */
  lemma {:induction false} CountWitness<T>(s: seq<T>, p: T -> bool) returns (i: nat)
    requires Count(s, p) > 0
    ensures i < |s| && p(s[i])
  {
    if p(s[0]) {
      i := 0;
    } else {
      i := CountWitness(s[1..], p);
      i := i + 1;
    }
  }

  lemma {:induction false} CountNone<T>(s: seq<T>, p: T -> bool)
    requires forall i :: 0 <= i < |s| ==> !p(s[i])
    ensures Count(s, p) == 0
  {
    if s != [] {
      CountNone(s[1..], p);
    }
  }

  /** The elements of `s` that satisfy `p`, in order. */
  ghost function Filter<T>(s: seq<T>, p: T -> bool): seq<T> {
    if s == [] then []
    else if p(s[0]) then [s[0]] + Filter(s[1..], p)
    else Filter(s[1..], p)
  }

  lemma {:induction false} FilterConcat<T>(a: seq<T>, b: seq<T>, p: T -> bool)
    ensures Filter(a + b, p) == Filter(a, p) + Filter(b, p)
  {
    if a == [] {
      assert a + b == b;
    } else {
      FilterConcat(a[1..], b, p);
      assert (a + b)[1..] == a[1..] + b;
      assert [a[0]] + (Filter(a[1..], p) + Filter(b, p)) == [a[0]] + Filter(a[1..], p) + Filter(b, p);
    }
  }

  lemma FilterSnoc<T>(s: seq<T>, x: T, p: T -> bool)
    ensures Filter(s + [x], p) == if p(x) then Filter(s, p) + [x] else Filter(s, p)
  {
    FilterConcat(s, [x], p);
    assert [x][1..] == [];
  }

  lemma {:induction false} FilterNone<T>(s: seq<T>, p: T -> bool)
    requires forall i :: 0 <= i < |s| ==> !p(s[i])
    ensures Filter(s, p) == []
  {
    if s != [] {
      FilterNone(s[1..], p);
    }
  }

  /** Taking out the first element that satisfies `p` takes it off the front of the filter. */
  lemma FilterRemoveFirst<T>(s: seq<T>, i: nat, p: T -> bool)
    requires i < |s| && p(s[i])
    requires forall j :: 0 <= j < i ==> !p(s[j])
    ensures Filter(s, p) == [s[i]] + Filter(s[..i] + s[i + 1..], p)
  {
    FilterNone(s[..i], p);
    FilterConcat(s[..i], s[i + 1..], p);
    FilterConcat(s[..i], s[i..], p);
    assert s == s[..i] + s[i..];
    assert s[i..][1..] == s[i + 1..];
  }

  /** Taking out an element that does not satisfy `p` leaves the filter as it is. */
  lemma FilterRemoveOther<T>(s: seq<T>, i: nat, p: T -> bool)
    requires i < |s| && !p(s[i])
    ensures Filter(s[..i] + s[i + 1..], p) == Filter(s, p)
  {
    FilterConcat(s[..i], s[i + 1..], p);
    FilterConcat(s[..i], s[i..], p);
    assert s == s[..i] + s[i..];
    assert s[i..][1..] == s[i + 1..];
  }

  /** Equality with `x`, as a predicate. */
  ghost function Is<T>(x: T): T -> bool { y => y == x }

  /** Counting occurrences of a value is its multiplicity. */
  lemma {:induction false} CountIsMultiplicity<T>(s: seq<T>, x: T)
    ensures Count(s, Is(x)) == multiset(s)[x]
  {
    if s != [] {
      CountIsMultiplicity(s[1..], x);
      assert s == [s[0]] + s[1..];
    }
  }

  /** All elements of all sequences, in order. */
  function Flatten<T>(ss: seq<seq<T>>): seq<T> {
    if ss == [] then [] else ss[0] + Flatten(ss[1..])
  }

  lemma {:induction false} FlattenSnoc<T>(ss: seq<seq<T>>, s: seq<T>)
    ensures Flatten(ss + [s]) == Flatten(ss) + s
  {
    if ss == [] {
      assert ss + [s] == [s] && [s][1..] == [];
      assert s + [] == [] + s;
    } else {
      FlattenSnoc(ss[1..], s);
      assert (ss + [s])[1..] == ss[1..] + [s];
      Assoc(ss[0], Flatten(ss[1..]), s);
    }
  }
}
