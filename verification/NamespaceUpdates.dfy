/**
 * Adding to the namespace: what mkdir, create and setting an attribute need to
 * keep it well formed, and that attributes do not interfere.
 */
module NamespaceUpdates {
  import opened Sequences
  import opened Namespace
  import opened NamespaceLaws

  // ----- Adding a key -----

  /** The directories on the way to a key exist, once the key itself does. */
  ghost predicate Reachable(keys: set<string>, k: string) {
    forall i :: 0 <= i < |k| && k[i] == '/' ==> k[..i + 1] in keys + {k}
  }

  /** Adding the key makes no path both a file and a directory. */
  ghost predicate NoClash(keys: set<string>, k: string) {
    && (':' !in k && !EndsInSlash(k) ==> k + "/" !in keys)
    && (EndsInSlash(k) ==> k[..|k| - 1] !in keys)
  }

  lemma AddDirs(keys: set<string>, k: string)
    requires DirsExist(keys) && Reachable(keys, k)
    ensures DirsExist(keys + {k})
  {
  }

  lemma AddNoneBoth(keys: set<string>, k: string)
    requires NoneBoth(keys) && NoClash(keys, k)
    ensures NoneBoth(keys + {k})
  {
    forall j | j in keys + {k} && ':' !in j && !EndsInSlash(j) ensures j + "/" !in keys + {k} {
      assert (j + "/")[..|j|] == j;
    }
  }

  lemma AddKey(keys: set<string>, k: string)
    requires WellFormed(keys) && Shaped(k) && Owner(k) in keys + {k} && Reachable(keys, k) && NoClash(keys, k)
    ensures WellFormed(keys + {k})
  {
    hide Shaped, Owner, Reachable, NoClash, DirsExist, NoneBoth;
    AddDirs(keys, k);
    AddNoneBoth(keys, k);
  }

  /** A path splits into the key of its directory and a component. */
  lemma Splits(name: string)
    requires ValidName(name)
    ensures EndsInSlash(ParentKey(name)) && Component(name[BehindLastSlash(name)..])
    ensures name == ParentKey(name) + name[BehindLastSlash(name)..]
  {
    hide BehindLastSlash;
    var i := BehindLastSlash(name);
    assert name[..i][i - 1] == name[i - 1];
  }

  lemma ChildShaped(dir: string, n: string, tail: string)
    requires Shaped(dir) && EndsInSlash(dir) && Component(n) && (tail == "" || tail == "/")
    ensures Shaped(dir + n + tail) && Owner(dir + n + tail) == dir + n + tail && ':' !in dir + n + tail
  {
    var k := dir + n + tail;
    DirHasNoColon(dir);
    assert forall i :: 0 <= i < |k| ==>
             k[i] == if i < |dir| then dir[i] else if i < |dir| + |n| then n[i - |dir|] else '/';
    assert ':' !in k;
    NotFound(k, ':');
  }

  lemma ChildReachable(keys: set<string>, dir: string, n: string, tail: string)
    requires WellFormed(keys) && dir in keys && Component(n) && (tail == "" || tail == "/")
    ensures Reachable(keys, dir + n + tail)
  {
    hide WellFormed;
    var k := dir + n + tail;
    forall i | |dir| <= i < |dir + n| ensures k[i] != '/' {
      assert k[i] == n[i - |dir|];
    }
    forall i | 0 <= i < |k| && k[i] == '/' ensures k[..i + 1] in keys + {k} {
      if i < |dir| {
        Ancestor(keys, dir, i);
        assert k[..i + 1] == dir[..i + 1];
      } else {
        assert k[..i + 1] == k;
      }
    }
  }

  lemma AddChild(keys: set<string>, name: string, tail: string)
    requires WellFormed(keys) && ValidName(name) && ParentKey(name) in keys && (tail == "" || tail == "/")
    ensures Shaped(name + tail) && Owner(name + tail) == name + tail
    ensures Reachable(keys, name + tail) && ':' !in name + tail
  {
    hide WellFormed, Shaped, Find, BehindLastSlash, Reachable;
    Splits(name);
    var dir, n := ParentKey(name), name[BehindLastSlash(name)..];
    OwnerExists(keys, dir);
    ChildShaped(dir, n, tail);
    ChildReachable(keys, dir, n, tail);
    assert dir + n + tail == name + tail;
  }

  // ----- mkdir and create -----

  lemma DirClash(keys: set<string>, name: string)
    requires ValidName(name)
    ensures NoClash(keys, name + "/") <==> name !in keys
  {
    var dir := name + "/";
    assert dir[..|dir| - 1] == name;
  }

  lemma BothIsIllFormed(keys: set<string>, name: string)
    requires ValidName(name) && name in keys && name + "/" in keys
    ensures !WellFormed(keys)
  {
    assert ':' !in name && !EndsInSlash(name);
  }

  /** A successful mkdir keeps the namespace well formed exactly when the name is not already a file. */
  lemma MkdirKeepsExactly(db: Database, name: string)
    requires WellFormed(db.Keys) && ValidName(name) && Mkdir(db, name).1.Ok?
    ensures WellFormed(Mkdir(db, name).0.Keys) <==> name !in db
  {
    hide WellFormed, Shaped, Owner, Reachable, NoClash;
    var dir := name + "/";
    assert Mkdir(db, name).0.Keys == db.Keys + {dir};
    if name in db {
      BothIsIllFormed(db.Keys + {dir}, name);
    } else {
      AddChild(db.Keys, name, "/");
      DirClash(db.Keys, name);
      AddKey(db.Keys, dir);
    }
  }

  lemma FileClash(keys: set<string>, name: string)
    requires ValidName(name) && name + "/" !in keys
    ensures NoClash(keys, name)
  {
  }

  /** A file, temporary or not, is created in a well-formed namespace or not at all. */
  lemma CreateKeeps(db: Database, fname: string, temp: bool)
    requires WellFormed(db.Keys) && fname != "" && fname[0] == '/' && ':' !in fname
    ensures WellFormed(Create(db, fname, temp).0.Keys)
  {
    hide WellFormed, Shaped, Owner, Reachable, NoClash, ParentKey;
    if Create(db, fname, temp).1.Ok? {
      var made := db.Keys + {fname};
      assert fname + "" == fname;
      AddChild(db.Keys, fname, "");
      FileClash(db.Keys, fname);
      AddKey(db.Keys, fname);
      AddAttr(made, fname, "temp");
      assert fname + ":" + "temp" == fname + ":temp";
      assert Create(db, fname, temp).0.Keys == if temp then made + {fname + ":temp"} else made;
    }
  }

  // ----- Attributes -----

  lemma AttrShaped(owner: string, aname: string)
    requires Shaped(owner) && ':' !in owner && ValidAttr(aname)
    ensures var k := owner + ":" + aname;
            Shaped(k) && Owner(k) == owner && Find(k, ':') == |owner| && !EndsInSlash(k)
  {
    var k := owner + ":" + aname;
    FindAt(k, ':', |owner|);
    assert forall i :: 0 <= i < |k| ==>
             k[i] == if i < |owner| then owner[i] else if i == |owner| then ':' else aname[i - |owner| - 1];
    assert k[|owner|..] == ":" + aname;
    assert k[..|owner|] == owner;
  }

  lemma AttrReachable(keys: set<string>, owner: string, aname: string)
    requires WellFormed(keys) && owner in keys && ValidAttr(aname)
    ensures Reachable(keys, owner + ":" + aname)
  {
    hide WellFormed;
    var k := owner + ":" + aname;
    forall i | |owner| < i < |k| ensures k[i] != '/' {
      assert k[i] == aname[i - |owner| - 1];
    }
    forall i | 0 <= i < |k| && k[i] == '/' ensures k[..i + 1] in keys + {k} {
      Ancestor(keys, owner, i);
      assert k[..i + 1] == owner[..i + 1];
    }
  }

  lemma AddAttr(keys: set<string>, owner: string, aname: string)
    requires WellFormed(keys) && owner in keys && ':' !in owner && ValidAttr(aname)
    ensures WellFormed(keys + {owner + ":" + aname})
  {
    hide WellFormed, Shaped, Find, Reachable;
    var k := owner + ":" + aname;
    OwnerExists(keys, owner);
    AttrShaped(owner, aname);
    AttrReachable(keys, owner, aname);
    assert k[|owner|] == ':';
    AddKey(keys, k);
  }

  /** The key of a node: of a file, or of a directory. */
  function NodeKey(db: Database, fname: string): string {
    if fname in db then fname else fname + "/"
  }

  lemma NodeKeyShape(db: Database, fname: string)
    requires WellFormed(db.Keys) && ValidNode(fname) && Exists(db, fname)
    ensures NodeKey(db, fname) in db && Shaped(NodeKey(db, fname)) && ':' !in NodeKey(db, fname)
  {
    OwnerExists(db.Keys, NodeKey(db, fname));
  }

  /** Different nodes have different keys. */
  lemma NodeKeyInjective(db: Database, f: string, g: string)
    requires ValidNode(f) && ValidNode(g) && NodeKey(db, f) == NodeKey(db, g)
    ensures f == g
  {
    assert (f + "/")[|f|] == '/' && (g + "/")[|g|] == '/';
    assert (f + "/")[..|f|] == f && (g + "/")[..|g|] == g;
  }

  lemma AttrKeyInjective(n: string, a: string, m: string, b: string)
    requires ':' !in n && ':' !in m && n + ":" + a == m + ":" + b
    ensures n == m && a == b
  {
    var k, l := n + ":" + a, m + ":" + b;
    FindAt(k, ':', |n|);
    FindAt(l, ':', |m|);
    assert k[..|n|] == n && l[..|m|] == m;
    assert k[|n| + 1..] == a && l[|m| + 1..] == b;
  }

  lemma AttrKeyIs(db: Database, fname: string, aname: string)
    requires Exists(db, fname)
    ensures AttrKey(db, fname, aname) == Ok(NodeKey(db, fname) + ":" + aname)
  {
  }

  /** Putting or deleting attribute keys does not change which nodes exist. */
  lemma SameNodes(db: Database, db': Database, fname: string)
    requires ValidNode(fname) && forall k :: ':' !in k ==> (k in db <==> k in db')
    ensures Exists(db', fname) == Exists(db, fname) && NodeKey(db', fname) == NodeKey(db, fname)
  {
    assert ':' !in fname && ':' !in fname + "/";
  }

  lemma SetAttrKeeps(db: Database, fname: string, aname: string, value: Value)
    requires WellFormed(db.Keys) && ValidNode(fname) && ValidAttr(aname)
    ensures WellFormed(SetAttr(db, fname, aname, value).0.Keys)
  {
    hide WellFormed, Shaped;
    if Exists(db, fname) {
      var owner := NodeKey(db, fname);
      NodeKeyShape(db, fname);
      AttrKeyIs(db, fname, aname);
      AddAttr(db.Keys, owner, aname);
      assert SetAttr(db, fname, aname, value).0.Keys == db.Keys + {owner + ":" + aname};
    }
  }

  /** Setting an attribute changes what is read for that node and name, and for no other. */
  lemma SetThenGet(db: Database, f: string, a: string, value: Value, g: string, b: string)
    requires WellFormed(db.Keys) && ValidNode(f) && ValidNode(g) && SetAttr(db, f, a, value).1.Ok?
    ensures GetAttr(SetAttr(db, f, a, value).0, g, b) == if f == g && a == b then Ok(Some(value)) else GetAttr(db, g, b)
  {
    hide WellFormed, Shaped;
    var key := NodeKey(db, f) + ":" + a;
    var db' := SetAttr(db, f, a, value).0;
    assert key[|NodeKey(db, f)|] == ':';
    SameNodes(db, db', g);
    if Exists(db, g) {
      NodeKeyShape(db, f);
      NodeKeyShape(db, g);
      AttrKeyIs(db, f, a);
      AttrKeyIs(db, g, b);
      AttrKeyIs(db', g, b);
      if NodeKey(db, g) + ":" + b == key {
        AttrKeyInjective(NodeKey(db, f), a, NodeKey(db, g), b);
        NodeKeyInjective(db, f, g);
      }
    }
  }

  // ----- Removing keys -----

  /** A node's own key and its attribute keys. */
  function OwnedBy(keys: set<string>, n: string): set<string> {
    set k | k in keys && Owner(k) == n
  }

  /** Nothing that is left needs what is removed. */
  ghost predicate Unneeded(keys: set<string>, gone: set<string>) {
    && "/" !in gone
    && (forall k :: k in keys && k !in gone ==> Owner(k) !in gone)
    && (forall k, i :: k in keys && k !in gone && 0 <= i < |k| && k[i] == '/' ==> k[..i + 1] !in gone)
  }

  lemma RemoveKeys(keys: set<string>, gone: set<string>)
    requires WellFormed(keys) && Unneeded(keys, gone)
    ensures WellFormed(keys - gone)
  {
    hide Shaped, Owner;
  }

  lemma OwnerOfNode(k: string)
    requires ':' !in k
    ensures Owner(k) == k
  {
    NotFound(k, ':');
  }

  lemma OwnerHasNoColon(k: string)
    ensures ':' !in Owner(k)
  {
  }

  /** Whose owner a node is: its own key, and keys that go on with a colon. */
  lemma OwnedExactly(k: string, n: string)
    requires ':' !in n
    ensures Owner(k) == n <==> n <= k && (|k| == |n| || k[|n|] == ':')
  {
    if n <= k && |k| > |n| && k[|n|] == ':' {
      assert k[..|n|] == n;
      FindAt(k, ':', |n|);
    }
    if n == k {
      OwnerOfNode(k);
    }
  }
}
