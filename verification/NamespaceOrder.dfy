/**
 * When a listing names a child twice: the scan drops only repetitions that stand
 * next to each other, and another key can sort between a file and its
 * attributes.
 */
module NamespaceOrder {
  import opened Sequences
  import opened Lexicographic
  import opened AdjacentDuplicates
  import opened Namespace
  import opened NamespaceLaws

  // ----- Order of keys that differ behind a prefix -----

  lemma {:induction false} SmallerFirst(p: string, a: string, b: string)
    requires p <= a && p <= b && |a| > |p| && |b| > |p|
    ensures a[|p|] < b[|p|] ==> Leq(a, b)
    ensures Leq(a, b) ==> a[|p|] <= b[|p|]
  {
    if p != [] {
      assert p[1..] <= a[1..] && p[1..] <= b[1..] && a[0] == b[0];
      SmallerFirst(p[1..], a[1..], b[1..]);
    }
  }

  /** In an ascending sequence the order of keys is that of their positions. */
  lemma PositionsFollow(ks: seq<string>, i: nat, j: nat)
    requires Ascending(ks) && i < |ks| && j < |ks| && ks[i] != ks[j] && Leq(ks[i], ks[j])
    ensures i < j
  {
    if j < i {
      Antisymmetric(ks[i], ks[j]);
    }
  }

  // ----- Which keys give which entry -----

  lemma DirEntryExactly(k: string, dir: string, n: string)
    requires Below(k, dir) && Component(n)
    ensures EntryOf(k[|dir|..]) == DirEntry(n, true) <==> dir + n + "/" <= k
  {
    var rest := k[|dir|..];
    if dir + n + "/" <= k {
      assert rest[..|n| + 1] == n + "/";
      assert rest[|n|] == '/' && rest[..|n|] == n;
      FindAt(rest, '/', |n|);
    }
    if EntryOf(rest) == DirEntry(n, true) {
      assert rest[..|n| + 1] == n + "/";
      assert k == dir + rest;
      assert k[..|dir| + |n| + 1] == dir + n + "/";
    }
  }

  lemma FileEntryThen(k: string, dir: string, n: string)
    requires Below(k, dir) && EntryOf(k[|dir|..]) == DirEntry(n, false)
    ensures k == dir + n || dir + n + ":" <= k
  {
    var rest := k[|dir|..];
    assert k == dir + rest;
    if Find(rest, ':') < |rest| {
      assert rest[..|n| + 1] == n + ":";
      assert k[..|dir| + |n| + 1] == dir + n + ":";
    }
  }

  lemma FileKeyEntry(dir: string, n: string)
    requires Component(n)
    ensures Below(dir + n, dir) && EntryOf((dir + n)[|dir|..]) == DirEntry(n, false)
  {
    assert (dir + n)[|dir|..] == n && (dir + n)[|dir|] == n[0];
    NotFound(n, '/');
    NotFound(n, ':');
    assert n[..|n|] == n;
  }

  lemma AttrKeyEntry(k: string, dir: string, n: string)
    requires Shaped(k) && EndsInSlash(dir) && Component(n) && dir + n + ":" <= k
    ensures Below(k, dir) && EntryOf(k[|dir|..]) == DirEntry(n, false)
  {
    var rest := k[|dir|..];
    assert rest[..|n| + 1] == n + ":";
    assert rest[|n|] == ':' && rest[..|n|] == n && k[|dir|] == n[0];
    FindAt(rest, ':', |n|);
    assert k[|dir| + |n|] == ':';
    forall i | 0 <= i < |rest| ensures rest[i] != '/' {
      if i < |n| {
        assert rest[i] == n[i];
      } else {
        NoSlashBehindColon(k, |dir| + |n|, |dir| + i);
      }
    }
    NotFound(rest, '/');
  }

  lemma LongerName(k: string, dir: string, n: string)
    requires Component(n) && dir + n <= k && |k| > |dir + n| && k[|dir + n|] != '/' && k[|dir + n|] != ':'
    ensures Below(k, dir) && |NameOf(k, dir)| > |n|
  {
    var rest := k[|dir|..];
    assert k[|dir|] == n[0];
    forall i | 0 <= i <= |n| ensures rest[i] != '/' && rest[i] != ':' {
      assert rest[i] == if i < |n| then n[i] else k[|dir + n|];
    }
  }

  // ----- A file that is torn from its attributes -----

  /** The directory has a file `n`, the file has an attribute `a`, and `k` sorts between the two. */
  ghost predicate Torn(keys: set<string>, dir: string, n: string, k: string, a: string) {
    && Component(n) && dir + n in keys && k in keys && a in keys
    && dir + n + ":" <= a
    && dir + n <= k && |k| > |dir + n| && k[|dir + n|] < ':'
  }

  lemma BelowIsNamed(keys: set<string>, dir: string, k: string)
    requires WellFormed(keys) && dir in keys && EndsInSlash(dir) && k in keys && Below(k, dir)
    ensures Component(NameOf(k, dir)) && IsChild(keys, dir, EntryOf(k[|dir|..]))
  {
    GenuineIsChild(keys, dir, EntryOf(k[|dir|..]));
  }

  lemma Position(ks: seq<string>, k: string) returns (i: nat)
    requires k in ks
    ensures i < |ks| && ks[i] == k
  {
    i :| 0 <= i < |ks| && ks[i] == k;
  }

  /** A file that is torn from its attributes comes back in the order of the keys. */
  lemma TornComesBack(keys: set<string>, dir: string, ks: seq<string>, n: string, k: string, a: string)
    requires WellFormed(keys) && dir in keys && EndsInSlash(dir)
    requires Passed(ks, keys, dir, None) && Torn(keys, dir, n, k, a)
    ensures Interleaved(NamesOf(ks, dir))
  {
    hide WellFormed, EntryOf, Find, Shaped, Leq, Ascending;
    var f := dir + n;
    if k[|f|] == '/' {
      TornBySlash(keys, dir, n, k);
    }
    OwnerExists(keys, a);
    FileKeyEntry(dir, n);
    AttrKeyEntry(a, dir, n);
    LongerName(k, dir, n);
    PrefixLeq(f, k);
    assert f <= a && a[|f|] == ':';
    SmallerFirst(f, k, a);
    var i := Position(ks, f);
    var j := Position(ks, k);
    var l := Position(ks, a);
    PositionsFollow(ks, i, j);
    PositionsFollow(ks, j, l);
    assert ComesBack(NamesOf(ks, dir), i, j, l);
  }

  /** No key goes on from a file with a slash. */
  lemma TornBySlash(keys: set<string>, dir: string, n: string, k: string)
    requires WellFormed(keys) && dir in keys && EndsInSlash(dir) && Component(n) && dir + n in keys
    requires k in keys && dir + n <= k && |k| > |dir + n|
    ensures k[|dir + n|] != '/'
  {
    hide WellFormed;
    NotBoth(keys, dir, n);
    assert k[..|dir + n| + 1] == dir + n + [k[|dir + n|]];
    if k[|dir + n|] == '/' {
      Ancestor(keys, k, |dir + n|);
    }
  }

  /** The keys of a directory stand together. */
  lemma DirStaysTogether(dir: string, n: string, a: string, k: string, b: string)
    requires Component(n) && Below(a, dir) && Below(k, dir) && Below(b, dir) && Leq(a, k) && Leq(k, b)
    requires EntryOf(a[|dir|..]) == DirEntry(n, true) == EntryOf(b[|dir|..])
    ensures NameOf(k, dir) == n
  {
    hide EntryOf, Leq;
    var p := dir + n + "/";
    DirEntryExactly(a, dir, n);
    DirEntryExactly(b, dir, n);
    PrefixLeq(p, a);
    Transitive(p, a, k);
    PrefixesTogether(p, k, b);
    DirEntryExactly(k, dir, n);
  }

  /** So do the attributes of a file, so what comes between is between the file and them. */
  lemma FileIsTorn(keys: set<string>, dir: string, n: string, f: string, k: string, a: string)
    requires WellFormed(keys) && EndsInSlash(dir) && Component(n) && f in keys && k in keys && a in keys
    requires Below(f, dir) && Below(k, dir) && Below(a, dir)
    requires Leq(f, k) && Leq(k, a) && f != a && NameOf(k, dir) != n
    requires EntryOf(f[|dir|..]) == DirEntry(n, false) == EntryOf(a[|dir|..])
    ensures Torn(keys, dir, n, k, a)
  {
    hide WellFormed, EntryOf, Find, Shaped, Leq;
    var file := dir + n;
    FileEntryThen(f, dir, n);
    FileEntryThen(a, dir, n);
    FileKeyEntry(dir, n);
    OwnerExists(keys, k);
    if file + ":" <= k {
      AttrKeyEntry(k, dir, n);
    }
    if file + ":" <= f {
      AttributesTogether(file, f, k, a);
    }
    PrefixesTogether(file, k, a);
    assert k != file;
    assert k[..|file| + 1] == file + [k[|file|]];
    SmallerFirst(file, k, a);
  }

  lemma AttributesTogether(file: string, f: string, k: string, a: string)
    requires file + ":" <= f && (a == file || file + ":" <= a) && Leq(f, k) && Leq(k, a)
    ensures file + ":" <= k
  {
    hide Leq;
    var p := file + ":";
    PrefixLeq(p, f);
    Transitive(f, k, a);
    if a == file {
      PrefixLeq(a, f);
      Antisymmetric(a, f);
    }
    Transitive(p, f, k);
    PrefixesTogether(p, k, a);
  }

  /** What comes back in the order of the keys is a file torn from its attributes. */
  lemma ComesBackTorn(keys: set<string>, dir: string, ks: seq<string>, i: int, j: int, l: int) returns (n: string)
    requires WellFormed(keys) && dir in keys && EndsInSlash(dir) && Passed(ks, keys, dir, None)
    requires ComesBack(NamesOf(ks, dir), i, j, l)
    ensures Torn(keys, dir, n, ks[j], ks[l])
  {
    hide WellFormed, EntryOf, Leq, IsChild;
    assert ks[i] in ks && ks[j] in ks && ks[l] in ks;
    n := NameOf(ks[i], dir);
    BelowIsNamed(keys, dir, ks[i]);
    BelowIsNamed(keys, dir, ks[l]);
    OneKind(keys, dir, EntryOf(ks[i][|dir|..]), EntryOf(ks[l][|dir|..]));
    if EntryOf(ks[i][|dir|..]).isDir {
      DirStaysTogether(dir, n, ks[i], ks[j], ks[l]);
    } else {
      FileIsTorn(keys, dir, n, ks[i], ks[j], ks[l]);
    }
  }

  /**
   * The listing of an existing directory names some child twice exactly when the
   * directory has a file with an attribute and a key that sorts between them.
   */
  lemma TwiceExactly(keys: set<string>, dir: string, listing: seq<DirEntry>)
    requires WellFormed(keys) && dir in keys && EndsInSlash(dir) && InOrder(keys, dir, listing)
    ensures Repeats(Names(listing)) <==> exists n, k, a :: Torn(keys, dir, n, k, a)
  {
    hide WellFormed, Torn, Compress, Names;
    var ks :| Passed(ks, keys, dir, None) && Names(listing) == Compress(NamesOf(ks, dir));
    forall i | 0 <= i < |ks| ensures NamesOf(ks, dir)[i] != "" {
      assert ks[i] in ks;
      BelowIsNamed(keys, dir, ks[i]);
    }
    RepeatsExactly(NamesOf(ks, dir));
    if i, j, l :| ComesBack(NamesOf(ks, dir), i, j, l) {
      var n := ComesBackTorn(keys, dir, ks, i, j, l);
    }
    if n, k, a :| Torn(keys, dir, n, k, a) {
      TornComesBack(keys, dir, ks, n, k, a);
    }
  }
}
