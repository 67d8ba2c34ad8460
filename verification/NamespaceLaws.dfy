/**
 * What a well-formed database provides, and what a listing means: as a set it
 * is exactly the children of the directory.
 */
module NamespaceLaws {
  import opened Sequences
  import opened Lexicographic
  import opened Namespace

  // ----- Characters in keys -----

  lemma NotFound(s: string, c: char)
    ensures c !in s <==> Find(s, c) == |s|
  {
  }

  lemma FindAt(s: string, c: char, i: nat)
    requires i < |s| && s[i] == c && forall j :: 0 <= j < i ==> s[j] != c
    ensures Find(s, c) == i
  {
  }

  lemma FindBehind(a: string, b: string, c: char)
    requires c !in a
    ensures Find(a + b, c) == |a| + Find(b, c)
  {
    var s := a + b;
    forall j | 0 <= j < |a| + Find(b, c) ensures s[j] != c {
      assert s[j] == if j < |a| then a[j] else b[j - |a|];
    }
    if Find(b, c) < |b| {
      FindAt(s, c, |a| + Find(b, c));
    }
  }

  /** No slash comes behind a colon, so the key of a directory has no colon. */
  lemma ColonBehindSlash(k: string, i: nat)
    requires Shaped(k) && i < |k| && k[i] == '/'
    ensures i < Find(k, ':')
  {
    forall j | Find(k, ':') <= j < |k| ensures k[j] != '/' {
      assert k[Find(k, ':')..][j - Find(k, ':')] == k[j];
    }
  }

  lemma NoSlashBehindColon(k: string, c: nat, i: nat)
    requires Shaped(k) && c <= i < |k| && k[c] == ':'
    ensures k[i] != '/'
  {
    assert k[Find(k, ':')..][i - Find(k, ':')] == k[i];
  }

  lemma DirHasNoColon(k: string)
    requires Shaped(k) && EndsInSlash(k)
    ensures Find(k, ':') == |k| && ':' !in k
  {
    ColonBehindSlash(k, |k| - 1);
    NotFound(k, ':');
  }

  // ----- What a well-formed database provides -----

  lemma Ancestor(keys: set<string>, k: string, i: nat)
    requires WellFormed(keys) && k in keys && i < |k| && k[i] == '/'
    ensures Shaped(k) && k[..i + 1] in keys
  {
  }

  lemma OwnerExists(keys: set<string>, k: string)
    requires WellFormed(keys) && k in keys
    ensures Shaped(k) && Owner(k) in keys
  {
  }

  /** A slash is followed by something else. */
  lemma SlashThen(k: string, i: nat)
    requires Shaped(k) && i + 1 < |k| && k[i] == '/'
    ensures k[i + 1] != '/'
  {
  }

  // ----- A listing is the set of children -----

  predicate Component(n: string) {
    n != "" && '/' !in n && ':' !in n
  }

  /** The directory has a child of this name and kind. */
  ghost predicate IsChild(keys: set<string>, dir: string, e: DirEntry) {
    Component(e.name) && (if e.isDir then dir + e.name + "/" in keys else dir + e.name in keys)
  }

  lemma DirectoryBelow(keys: set<string>, dir: string, k: string)
    requires WellFormed(keys) && k in keys && EndsInSlash(dir) && Below(k, dir) && Find(k[|dir|..], '/') < |k| - |dir|
    ensures IsChild(keys, dir, EntryOf(k[|dir|..]))
  {
    hide WellFormed, Find, Shaped;
    var rest := k[|dir|..];
    var i := Find(rest, '/');
    var name := rest[..i];
    Ancestor(keys, k, |dir| + i);
    ColonBehindSlash(k, |dir| + i);
    SlashThen(k, |dir| - 1);
    forall j | 0 <= j < |name| ensures name[j] != '/' && name[j] != ':' {
      assert name[j] == rest[j] == k[|dir| + j];
    }
    assert k[..|dir| + i + 1] == dir + name + "/";
  }

  lemma FileBelow(keys: set<string>, dir: string, k: string)
    requires WellFormed(keys) && dir in keys && k in keys && EndsInSlash(dir) && Below(k, dir)
    requires Find(k[|dir|..], '/') == |k| - |dir|
    ensures IsChild(keys, dir, EntryOf(k[|dir|..]))
  {
    hide WellFormed, Find, Shaped;
    var rest := k[|dir|..];
    var i := Find(rest, ':');
    var name := rest[..i];
    OwnerExists(keys, dir);
    OwnerExists(keys, k);
    DirHasNoColon(dir);
    FindBehind(dir, rest, ':');
    assert k == dir + rest;
    assert Owner(k) == dir + name;
    forall j | 0 <= j < |name| ensures name[j] != '/' && name[j] != ':' {
      assert name[j] == rest[j];
    }
  }

  lemma GenuineIsChild(keys: set<string>, dir: string, e: DirEntry)
    requires WellFormed(keys) && dir in keys && EndsInSlash(dir) && Genuine(keys, e, dir)
    ensures IsChild(keys, dir, e)
  {
    var k :| k in keys && Below(k, dir) && EntryOf(k[|dir|..]) == e;
    if Find(k[|dir|..], '/') < |k| - |dir| {
      DirectoryBelow(keys, dir, k);
    } else {
      FileBelow(keys, dir, k);
    }
  }

  lemma ChildIsBelow(keys: set<string>, dir: string, e: DirEntry) returns (k: string)
    requires IsChild(keys, dir, e)
    ensures k in keys && Below(k, dir) && EntryOf(k[|dir|..]) == e
  {
    k := if e.isDir then dir + e.name + "/" else dir + e.name;
    var rest := if e.isDir then e.name + "/" else e.name;
    assert k[|dir|..] == rest && k[|dir|] == rest[0] == e.name[0];
    if e.isDir {
      FindAt(rest, '/', |e.name|);
      assert rest[..|e.name|] == e.name;
    } else {
      NotFound(rest, '/');
      NotFound(rest, ':');
      assert rest[..|rest|] == rest;
    }
  }

  lemma NotBoth(keys: set<string>, dir: string, name: string)
    requires WellFormed(keys) && dir in keys && EndsInSlash(dir) && Component(name) && dir + name in keys
    ensures dir + name + "/" !in keys
  {
    var k := dir + name;
    DirHasNoColon(dir);
    assert k[|k| - 1] == name[|name| - 1];
    assert ':' !in k && !EndsInSlash(k);
  }

  /** In a well-formed namespace a child is either a file or a directory. */
  lemma OneKind(keys: set<string>, dir: string, d: DirEntry, e: DirEntry)
    requires WellFormed(keys) && dir in keys && EndsInSlash(dir)
    requires IsChild(keys, dir, d) && IsChild(keys, dir, e) && d.name == e.name
    ensures d == e
  {
    hide WellFormed;
    if dir + d.name in keys {
      NotBoth(keys, dir, d.name);
    }
  }

  /**
   * A listing of a directory is, as a set, exactly its children with their
   * kinds, however deep the subtree is and whatever attributes it has.
   */
  lemma ListingIsChildren(keys: set<string>, dir: string, listing: seq<DirEntry>, e: DirEntry)
    requires WellFormed(keys) && dir in keys && EndsInSlash(dir) && Lists(keys, dir, listing)
    ensures e in listing <==> IsChild(keys, dir, e)
  {
    if e in listing {
      GenuineIsChild(keys, dir, e);
    }
    if IsChild(keys, dir, e) {
      var k := ChildIsBelow(keys, dir, e);
      assert Listed(listing, k, dir);
      var i :| 0 <= i < |listing| && listing[i].name == e.name;
      GenuineIsChild(keys, dir, listing[i]);
      OneKind(keys, dir, listing[i], e);
    }
  }

  /** An existing directory is listed, never refused: the scan starts at its own key. */
  lemma ExistingIsListed(keys: set<string>, dir: string)
    requires dir in keys
    ensures First(keys, dir) == Some(dir) && !Misses(keys, dir)
  {
    var first := First(keys, dir);
    Reflexive(dir);
    Antisymmetric(dir, first.value);
  }

  /** No key lies below a directory that is missing. */
  lemma NothingBelowMissing(keys: set<string>, dir: string, k: string)
    requires WellFormed(keys) && EndsInSlash(dir) && dir !in keys && k in keys
    ensures !(dir <= k)
  {
    hide Shaped, WellFormed;
    if dir <= k {
      assert k[|dir| - 1] == '/' && k[..|dir|] == dir;
      Ancestor(keys, k, |dir| - 1);
    }
  }

  /** A directory is refused exactly when it is missing and some key sorts behind it. */
  lemma RefusedExactly(keys: set<string>, dir: string)
    requires WellFormed(keys) && EndsInSlash(dir)
    ensures Misses(keys, dir) <==> dir !in keys && First(keys, dir).Some?
  {
    hide WellFormed, FirstFrom;
    if dir in keys {
      ExistingIsListed(keys, dir);
    } else if First(keys, dir).Some? {
      FirstIsKey(keys, dir);
      NothingBelowMissing(keys, dir, First(keys, dir).value);
    }
  }

  lemma FirstIsKey(keys: set<string>, from: string)
    requires First(keys, from).Some?
    ensures First(keys, from).value in keys
  {
  }

  /** A missing directory that is not refused is listed as one that is empty. */
  lemma MissingIsEmpty(keys: set<string>, dir: string, listing: seq<DirEntry>)
    requires WellFormed(keys) && EndsInSlash(dir) && dir !in keys && Lists(keys, dir, listing)
    ensures listing == []
  {
    hide WellFormed, Listed;
    if listing != [] {
      assert Genuine(keys, listing[0], dir);
      var k :| k in keys && Below(k, dir) && EntryOf(k[|dir|..]) == listing[0];
      NothingBelowMissing(keys, dir, k);
    }
  }
}
