/** The order of keys in the database, and what it means for keys that share a prefix. */
module Lexicographic {
  import opened Sequences

  /** Lexicographic order; a prefix comes first. */
  predicate Leq(a: string, b: string) {
    a == [] || (b != [] && (a[0] < b[0] || (a[0] == b[0] && Leq(a[1..], b[1..]))))
  }

  lemma {:induction false} Reflexive(a: string)
    ensures Leq(a, a)
  {
    if a != [] {
      Reflexive(a[1..]);
    }
  }

  lemma {:induction false} Antisymmetric(a: string, b: string)
    requires Leq(a, b) && Leq(b, a)
    ensures a == b
  {
    if a != [] {
      Antisymmetric(a[1..], b[1..]);
      assert a == [a[0]] + a[1..] && b == [b[0]] + b[1..];
    }
  }

  lemma {:induction false} Transitive(a: string, b: string, c: string)
    requires Leq(a, b) && Leq(b, c)
    ensures Leq(a, c)
  {
    if a != [] && a[0] == b[0] && b[0] == c[0] {
      Transitive(a[1..], b[1..], c[1..]);
    }
  }

  lemma {:induction false} Total(a: string, b: string)
    ensures Leq(a, b) || Leq(b, a)
  {
    if a != [] && b != [] && a[0] == b[0] {
      Total(a[1..], b[1..]);
    }
  }

  lemma {:induction false} PrefixLeq(p: string, k: string)
    requires p <= k
    ensures Leq(p, k)
  {
    if p != [] {
      assert p[1..] <= k[1..];
      PrefixLeq(p[1..], k[1..]);
    }
  }

  /** Keys with a common prefix stand together, behind the prefix itself. */
  lemma {:induction false} PrefixesTogether(p: string, a: string, b: string)
    requires Leq(p, a) && Leq(a, b) && p <= b
    ensures p <= a
  {
    if p != [] {
      assert p[0] == b[0] && p[1..] <= b[1..];
      PrefixesTogether(p[1..], a[1..], b[1..]);
      assert p == [p[0]] + p[1..] && a == [a[0]] + a[1..];
    }
  }

  /** A finite set of keys has a least one. */
  lemma {:induction false} LeastExists(keys: set<string>) returns (least: string)
    requires keys != {}
    ensures least in keys && forall k :: k in keys ==> Leq(least, k)
    decreases |keys|
  {
    var x :| x in keys;
    var rest := keys - {x};
    if rest == {} {
      Reflexive(x);
      least := x;
      assert keys == {x};
    } else {
      var y := LeastExists(rest);
      Total(x, y);
      least := if Leq(x, y) then x else y;
      forall k | k in keys ensures Leq(least, k) {
        if k == x {
          Reflexive(x);
        } else if least == x {
          Transitive(x, y, k);
        }
      }
    }
  }

  // ----- A cursor over the keys -----

  /** The first key at or behind a position. */
  ghost predicate FirstFrom(keys: set<string>, from: string, r: Option<string>) {
    match r
    case None => forall j :: j in keys ==> !Leq(from, j)
    case Some(k) => k in keys && Leq(from, k) && forall j :: j in keys && Leq(from, j) ==> Leq(k, j)
  }

  /** The key a cursor is set to. */
  ghost function First(keys: set<string>, from: string): (r: Option<string>)
    ensures FirstFrom(keys, from, r)
  {
    var behind := set k | k in keys && Leq(from, k);
    if behind == {} then
      assert forall j :: j in keys && Leq(from, j) ==> j in behind;
      None
    else
      LeastThere(behind);
      var k :| k in behind && forall j :: j in behind ==> Leq(k, j);
      Some(k)
  }

  lemma FirstUnique(keys: set<string>, from: string, r: Option<string>)
    requires FirstFrom(keys, from, r)
    ensures r == First(keys, from)
  {
    var f := First(keys, from);
    if r.Some? && f.Some? {
      Antisymmetric(r.value, f.value);
    }
  }

  lemma LeastThere(keys: set<string>)
    requires keys != {}
    ensures exists k :: k in keys && forall j :: j in keys ==> Leq(k, j)
  {
    var least := LeastExists(keys);
  }

  /** The first key behind another. */
  ghost predicate FirstAfter(keys: set<string>, at: string, r: Option<string>) {
    match r
    case None => forall j :: j in keys ==> Leq(j, at)
    case Some(k) => k in keys && !Leq(k, at) && forall j :: j in keys && !Leq(j, at) ==> Leq(k, j)
  }

  method Seek(keys: set<string>, from: string) returns (r: Option<string>)
    ensures FirstFrom(keys, from, r) && r == First(keys, from)
  {
    var behind := set k | k in keys && Leq(from, k);
    if behind == {} {
      assert forall j :: j in keys && Leq(from, j) ==> j in behind;
      r := None;
    } else {
      ghost var least := LeastExists(behind);
      var k :| k in behind && forall j :: j in behind ==> Leq(k, j);
      r := Some(k);
    }
    FirstUnique(keys, from, r);
  }

  method Next(keys: set<string>, at: string) returns (r: Option<string>)
    ensures FirstAfter(keys, at, r)
  {
    var behind := set k | k in keys && !Leq(k, at);
    if behind == {} {
      assert forall j :: j in keys && !Leq(j, at) ==> j in behind;
      return None;
    }
    ghost var least := LeastExists(behind);
    var k :| k in behind && forall j :: j in behind ==> Leq(k, j);
    return Some(k);
  }

  /** The keys a cursor has yet to visit, the current one included. */
  ghost function Ahead(keys: set<string>, cursor: Option<string>): set<string> {
    match cursor
    case None => {}
    case Some(k) => set j | j in keys && Leq(k, j)
  }

  /** A cursor that moves on leaves exactly one key behind. */
  lemma Advance(keys: set<string>, at: string, next: Option<string>)
    requires at in keys && FirstAfter(keys, at, next)
    ensures Ahead(keys, Some(at)) == Ahead(keys, next) + {at} && at !in Ahead(keys, next)
    ensures |Ahead(keys, next)| < |Ahead(keys, Some(at))|
  {
    Reflexive(at);
    forall j | j in keys ensures j in Ahead(keys, Some(at)) <==> j in Ahead(keys, next) + {at} {
      Total(at, j);
      if j != at && Leq(at, j) && Leq(j, at) {
        Antisymmetric(at, j);
      }
      if next.Some? && Leq(next.value, j) {
        Total(at, next.value);
        Transitive(at, next.value, j);
      }
    }
    if next.Some? {
      assert !Leq(next.value, at);
    }
    assert Ahead(keys, Some(at)) == Ahead(keys, next) + {at};
  }

  /** Once a cursor that started at a prefix leaves the prefix, no key with the prefix is ahead. */
  lemma PrefixPassed(keys: set<string>, p: string, cursor: Option<string>)
    requires cursor.Some? ==> Leq(p, cursor.value) && !(p <= cursor.value)
    ensures forall k :: k in Ahead(keys, cursor) ==> !(p <= k)
  {
    forall k | k in Ahead(keys, cursor) ensures !(p <= k) {
      if p <= k {
        PrefixesTogether(p, cursor.value, k);
      }
    }
  }

  /** A cursor set to a prefix has all keys with the prefix ahead. */
  lemma FromPrefix(keys: set<string>, p: string, cursor: Option<string>)
    requires FirstFrom(keys, p, cursor)
    ensures forall k :: k in keys && p <= k ==> k in Ahead(keys, cursor)
  {
    forall k | k in keys && p <= k ensures k in Ahead(keys, cursor) {
      PrefixLeq(p, k);
    }
  }

  /** A cursor that moves on stays behind where it started. */
  lemma MovedOn(p: string, at: string, next: Option<string>)
    requires Leq(p, at) && (next.Some? ==> !Leq(next.value, at))
    ensures next.Some? ==> Leq(p, next.value)
  {
    if next.Some? {
      Total(at, next.value);
      Transitive(p, at, next.value);
    }
  }
}
