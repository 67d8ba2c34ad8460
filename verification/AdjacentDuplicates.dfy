/** Dropping each element that repeats the one before it, and what repetitions that leaves. */
module AdjacentDuplicates {
  /** The last of some names, the empty one when there is none. */
  function Last(ns: seq<string>): string {
    if ns == [] then "" else ns[|ns| - 1]
  }

  function Compress(ns: seq<string>): seq<string> {
    if ns == [] then []
    else
      var before, x := ns[..|ns| - 1], ns[|ns| - 1];
      if Last(before) == x then Compress(before) else Compress(before) + [x]
  }

  lemma CompressSnoc(ns: seq<string>, x: string)
    ensures Compress(ns + [x]) == if Last(ns) == x then Compress(ns) else Compress(ns) + [x]
  {
    assert (ns + [x])[..|ns|] == ns;
  }

  /** A name comes back after another one. */
  ghost predicate ComesBack(ns: seq<string>, i: int, j: int, l: int) {
    0 <= i < j < l < |ns| && ns[i] == ns[l] != ns[j]
  }

  ghost predicate Interleaved(ns: seq<string>) {
    exists i, j, l :: ComesBack(ns, i, j, l)
  }

  ghost predicate Repeats(ns: seq<string>) {
    exists i, j :: 0 <= i < j < |ns| && ns[i] == ns[j]
  }

  lemma {:induction false} CompressHas(ns: seq<string>, x: string)
    requires "" !in ns
    ensures x in Compress(ns) <==> x in ns
  {
    if ns != [] {
      var m := ns[..|ns| - 1];
      CompressHas(m, x);
      assert ns == m + [ns[|ns| - 1]];
    }
  }

  lemma {:induction false} RepeatsThenInterleaved(ns: seq<string>)
    requires "" !in ns && Repeats(Compress(ns))
    ensures Interleaved(ns)
  {
    var m, x := ns[..|ns| - 1], ns[|ns| - 1];
    var c := Compress(m);
    var i, j :| 0 <= i < j < |Compress(ns)| && Compress(ns)[i] == Compress(ns)[j];
    if j < |c| {
      assert c[i] == c[j];
      RepeatsThenInterleaved(m);
      var a, b, d :| ComesBack(m, a, b, d);
      assert ComesBack(ns, a, b, d);
    } else {
      CompressHas(m, x);
      assert c[i] == x;
      var a :| 0 <= a < |m| && m[a] == x;
      assert ComesBack(ns, a, |m| - 1, |m|);
    }
  }

  lemma {:induction false} InterleavedThenRepeats(ns: seq<string>, i: int, j: int, l: int)
    requires "" !in ns && ComesBack(ns, i, j, l)
    ensures Repeats(Compress(ns))
    decreases |ns|
  {
    var m, x := ns[..|ns| - 1], ns[|ns| - 1];
    var c := Compress(m);
    if l < |m| || Last(m) == x {
      var l' := if l < |m| then l else |m| - 1;
      assert ComesBack(m, i, j, l');
      InterleavedThenRepeats(m, i, j, l');
      var a, b :| 0 <= a < b < |c| && c[a] == c[b];
      assert Compress(ns)[a] == Compress(ns)[b];
    } else {
      CompressHas(m, x);
      assert m[i] == x;
      var a :| 0 <= a < |c| && c[a] == x;
      assert Compress(ns)[a] == Compress(ns)[|c|];
    }
  }

  /** Something is still there twice exactly when a name came back after another one. */
  lemma RepeatsExactly(ns: seq<string>)
    requires "" !in ns
    ensures Repeats(Compress(ns)) <==> Interleaved(ns)
  {
    if Repeats(Compress(ns)) {
      RepeatsThenInterleaved(ns);
    }
    if i, j, l :| ComesBack(ns, i, j, l) {
      InterleavedThenRepeats(ns, i, j, l);
    }
  }
}
