/**
 * The operations as a reader of attributes sees them: what each of them makes
 * of every attribute of every node, when it succeeds, and what it undoes.
 */
module NamespaceReads {
  import opened Sequences
  import opened Namespace
  import opened NamespaceLaws
  import opened NamespaceUpdates
  import opened NamespaceRemoval

  /** What reading finds: the value under the node's key, a colon and the name. */
  lemma ReadIs(db: Database, g: string, b: string)
    ensures GetAttr(db, g, b) ==
            if !Exists(db, g) then Err(FileNotFound)
            else
              var key := NodeKey(db, g) + ":" + b;
              Ok(if key in db then Some(db[key]) else None)
  {
    if Exists(db, g) {
      AttrKeyIs(db, g, b);
    }
  }

  // ----- Attributes -----

  /** Setting succeeds exactly when the node exists, and changes nothing otherwise. */
  lemma SetExactly(db: Database, f: string, a: string, value: Value)
    ensures SetAttr(db, f, a, value).1 == if Exists(db, f) then Ok(()) else Err(FileNotFound)
    ensures !Exists(db, f) ==> SetAttr(db, f, a, value).0 == db
  {
  }

  /** Deleting succeeds exactly when the attribute is there to be read, and changes nothing otherwise. */
  lemma DeleteExactly(db: Database, f: string, a: string)
    ensures DelAttr(db, f, a).1 == match GetAttr(db, f, a)
                                   case Err(e) => Err(e)
                                   case Ok(None) => Err(AttrNotFound)
                                   case Ok(Some(_)) => Ok(())
    ensures DelAttr(db, f, a).1.Err? ==> DelAttr(db, f, a).0 == db
  {
  }

  /** A deleted attribute is not read any more; every other is read as before. */
  lemma DeleteThenGet(db: Database, f: string, a: string, g: string, b: string)
    requires WellFormed(db.Keys) && ValidNode(f) && ValidNode(g) && DelAttr(db, f, a).1.Ok?
    ensures GetAttr(DelAttr(db, f, a).0, g, b) == if f == g && a == b then Ok(None) else GetAttr(db, g, b)
  {
    hide WellFormed, Shaped;
    var key := NodeKey(db, f) + ":" + a;
    var db' := DelAttr(db, f, a).0;
    assert key[|NodeKey(db, f)|] == ':';
    AttrKeyIs(db, f, a);
    SameNodes(db, db', g);
    ReadIs(db, g, b);
    ReadIs(db', g, b);
    if Exists(db, g) {
      NodeKeyShape(db, f);
      NodeKeyShape(db, g);
      if NodeKey(db, g) + ":" + b == key {
        AttrKeyInjective(NodeKey(db, f), a, NodeKey(db, g), b);
        NodeKeyInjective(db, f, g);
      }
    }
  }

  /** Deleting undoes setting a new attribute: the database is as before. */
  lemma DeleteUndoesSet(db: Database, f: string, a: string, value: Value)
    requires ValidNode(f) && GetAttr(db, f, a) == Ok(None)
    ensures DelAttr(SetAttr(db, f, a, value).0, f, a) == (db, Ok(()))
  {
    var key := NodeKey(db, f) + ":" + a;
    var db' := SetAttr(db, f, a, value).0;
    assert key[|NodeKey(db, f)|] == ':';
    ReadIs(db, f, a);
    AttrKeyIs(db, f, a);
    SameNodes(db, db', f);
    AttrKeyIs(db', f, a);
    assert db' - {key} == db;
  }

  // ----- Nodes -----

  /** A node that does not exist has no attribute key. */
  lemma MissingHasNone(keys: set<string>, n: string, b: string)
    requires WellFormed(keys) && n !in keys && ':' !in n
    ensures n + ":" + b !in keys
  {
    hide WellFormed;
    var k := n + ":" + b;
    AttrOwner(n, b);
    if k in keys {
      OwnerExists(keys, k);
    }
  }

  /** Keys of one node do not show in another. */
  lemma OtherNode(db: Database, n: string, a: string, g: string, b: string)
    requires ':' !in n && ValidNode(g) && NodeKey(db, g) != n
    ensures n + ":" + a != NodeKey(db, g) + ":" + b
  {
    assert ':' !in NodeKey(db, g);
    if n + ":" + a == NodeKey(db, g) + ":" + b {
      AttrKeyInjective(n, a, NodeKey(db, g), b);
    }
  }

  lemma SlashTells(f: string, g: string)
    requires ValidName(f) && ValidNode(g)
    ensures f != g + "/" && (f + "/" == g + "/" ==> f == g) && f + "/" != g
  {
    assert (g + "/")[|g|] == '/';
    assert (f + "/")[|f|] == '/' && |f + "/"| > 1;
    assert (f + "/")[..|f|] == f && (g + "/")[..|g|] == g;
  }

  /** When a file can be created, and with which errors it cannot. */
  lemma CreateExactly(db: Database, f: string, temp: bool)
    ensures Create(db, f, temp).1 ==
            if Exists(db, f) then Err(FileExists)
            else if f != [] && f[|f| - 1] == '/' then Err(IsDirectory)
            else if ParentKey(f) in db then Ok(()) else Err(BadPathname)
    ensures Create(db, f, temp).1.Err? ==> Create(db, f, temp).0 == db
    ensures Create(db, f, temp).1.Ok? ==>
              var made := Create(db, f, temp).0;
              f in made && made[f] == db[ParentKey(f)] && f + "/" !in made
  {
    assert f + "/" != f && f + "/" != f + ":temp" by {
      assert (f + "/")[|f|] == '/' && (f + ":temp")[|f|] == ':';
    }
  }

  /** A new file has no attribute but the mark of a temporary one; every other node has the attributes it had. */
  lemma CreateThenGet(db: Database, f: string, temp: bool, g: string, b: string)
    requires WellFormed(db.Keys) && ValidName(f) && ValidNode(g) && Create(db, f, temp).1.Ok?
    ensures GetAttr(Create(db, f, temp).0, g, b) ==
            if f != g then GetAttr(db, g, b)
            else Ok(if temp && b == "temp" then Some(db[ParentKey(f)]) else None)
  {
    hide WellFormed, BehindLastSlash;
    var db' := Create(db, f, temp).0;
    var mark := f + ":" + "temp";
    assert mark == f + ":temp" && mark[|f|] == ':';
    assert ':' !in f && ':' !in g && ':' !in g + "/";
    SlashTells(f, g);
    ReadIs(db, g, b);
    ReadIs(db', g, b);
    if f == g {
      MissingHasNone(db.Keys, f, b);
      if f + ":" + b == mark {
        AttrKeyInjective(f, b, f, "temp");
      }
    } else {
      OtherNode(db, f, "temp", g, b);
      assert NodeKey(db, g) + ":" + b != f by { assert (NodeKey(db, g) + ":" + b)[|NodeKey(db, g)|] == ':'; }
    }
  }

  /** When a directory can be made, and with which errors it cannot. */
  lemma MkdirExactly(db: Database, name: string)
    requires ValidName(name)
    ensures Mkdir(db, name).1 ==
            if ParentKey(name) !in db then Err(FileNotFound)
            else if name + "/" in db then Err(FileExists) else Ok(())
    ensures Mkdir(db, name).1.Err? ==> Mkdir(db, name).0 == db
    ensures Mkdir(db, name).1.Ok? ==> Mkdir(db, name).0 == db[name + "/" := []]
  {
  }

  /** A new directory has no attribute, unless it hides behind a file; every other node has the attributes it had. */
  lemma MkdirThenGet(db: Database, name: string, g: string, b: string)
    requires WellFormed(db.Keys) && ValidName(name) && ValidNode(g) && Mkdir(db, name).1.Ok?
    ensures GetAttr(Mkdir(db, name).0, g, b) == if g == name && name !in db then Ok(None) else GetAttr(db, g, b)
  {
    hide WellFormed, BehindLastSlash;
    var db' := Mkdir(db, name).0;
    var dir := name + "/";
    assert ':' !in dir;
    SlashTells(name, g);
    ReadIs(db, g, b);
    ReadIs(db', g, b);
    assert NodeKey(db, g) + ":" + b != dir by { assert (NodeKey(db, g) + ":" + b)[|NodeKey(db, g)|] == ':'; }
    assert dir + ":" + b != dir;
    if g == name {
      MissingHasNone(db.Keys, dir, b);
    }
  }

  /** A node that is removed is gone with its attributes; every other node has the attributes it had. */
  lemma UnlinkThenGet(db: Database, name: string, g: string, b: string)
    requires WellFormed(db.Keys) && ValidName(name) && ValidNode(g) && Exists(db, name) && Unlink(db, name).1.Ok?
    ensures GetAttr(Unlink(db, name).0, g, b) == if g == name then Err(FileNotFound) else GetAttr(db, g, b)
  {
    hide WellFormed, Unlink, Owner, IsChild;
    var n := NodeKey(db, name);
    var db' := Unlink(db, name).0;
    if name in db {
      UnlinkFile(db, name);
    } else {
      UnlinkDirectory(db, name);
    }
    assert db' == db - OwnedBy(db.Keys, n);
    ReadIs(db, g, b);
    ReadIs(db', g, b);
    NodesLeft(db, db', n, g);
    if g != name && Exists(db, g) {
      NodeKeyShape(db, g);
      if NodeKey(db, g) == n {
        NodeKeyInjective(db, g, name);
      }
      AttrOwner(NodeKey(db, g), b);
    }
    if g == name {
      NameGone(db, db', name);
    }
  }

  lemma AttrOwner(n: string, b: string)
    requires ':' !in n
    ensures Owner(n + ":" + b) == n
  {
    var k := n + ":" + b;
    FindAt(k, ':', |n|);
    assert k[..|n|] == n;
  }

  /** Removing what one node owns leaves the keys of the others. */
  lemma NodesLeft(db: Database, db': Database, n: string, g: string)
    requires db' == db - OwnedBy(db.Keys, n) && ValidNode(g)
    ensures g in db' <==> g in db && g != n
    ensures g + "/" in db' <==> g + "/" in db && g + "/" != n
  {
    assert ':' !in g && ':' !in g + "/";
    OwnerOfNode(g);
    OwnerOfNode(g + "/");
  }

  lemma NameGone(db: Database, db': Database, name: string)
    requires WellFormed(db.Keys) && ValidName(name) && Exists(db, name)
    requires db' == db - OwnedBy(db.Keys, NodeKey(db, name))
    ensures !Exists(db', name)
  {
    hide WellFormed, Owner;
    NodesLeft(db, db', NodeKey(db, name), name);
    if name in db && name + "/" in db {
      BothIsIllFormed(db.Keys, name);
    }
  }
}
